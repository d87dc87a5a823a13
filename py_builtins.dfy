/** The Python built-ins the ingestion and query scripts rely on: the string
    methods strip, lower, replace and slicing, and dict.get. Each is modelled on
    `string` (a sequence of Unicode scalar values) for the single-character
    arguments the scripts pass. */
module PyBuiltins {

  datatype Option<T> = None | Some(value: T)

  // ---------------------------------------------------------------------------
  // Whitespace and str.strip()
  // ---------------------------------------------------------------------------

  /** The characters for which Python's str.isspace() holds: the ASCII
      separators (including the file/group/record/unit separators 0x1C-0x1F)
      and the Unicode space and line/paragraph separators. */
  predicate IsSpace(c: char)
  {
    c == ' ' || c == '\t' || c == '\n' || c == '\r' || c == '\U{B}' || c == '\U{C}'
    || c == '\U{1C}' || c == '\U{1D}' || c == '\U{1E}' || c == '\U{1F}'
    || c == '\U{85}' || c == '\U{A0}' || c == '\U{1680}'
    || ('\U{2000}' <= c <= '\U{200A}')
    || c == '\U{2028}' || c == '\U{2029}' || c == '\U{202F}' || c == '\U{205F}'
    || c == '\U{3000}'
  }

  predicate AllSpace(s: string)
  {
    forall i :: 0 <= i < |s| ==> IsSpace(s[i])
  }

  /** Empty, or neither first nor last character is whitespace. */
  predicate NoSpaceAtEnds(s: string)
  {
    s == [] || (!IsSpace(s[0]) && !IsSpace(s[|s| - 1]))
  }

  /** str.lstrip(): drops the longest whitespace prefix (LStripSplit shows
      that what it drops is a prefix of s and blank). */
  function LStrip(s: string): (r: string)
    ensures |r| <= |s|
    ensures r != [] ==> !IsSpace(r[0]) && r[|r| - 1] == s[|s| - 1]
    decreases |s|
  {
    if s != [] && IsSpace(s[0]) then LStrip(s[1..]) else s
  }

  /** str.rstrip(): drops the longest whitespace suffix (RStripSplit shows
      that what it drops is a suffix of s and blank). */
  function RStrip(s: string): (r: string)
    ensures |r| <= |s|
    ensures r != [] ==> !IsSpace(r[|r| - 1]) && r[0] == s[0]
    decreases |s|
  {
    if s != [] && IsSpace(s[|s| - 1]) then RStrip(s[..|s| - 1]) else s
  }

  /** str.strip(): drops whitespace at both ends. */
  function Strip(s: string): (r: string)
    ensures |r| <= |s|
    ensures NoSpaceAtEnds(r)
  {
    RStrip(LStrip(s))
  }

  lemma {:induction false} LStripSkip(a: string, t: string)
    requires AllSpace(a)
    ensures LStrip(a + t) == LStrip(t)
    decreases |a|
  {
    if a == [] {
      assert a + t == t;
    } else {
      assert (a + t)[0] == a[0];
      assert (a + t)[1..] == a[1..] + t;
      LStripSkip(a[1..], t);
    }
  }

  lemma {:induction false} RStripSkip(t: string, b: string)
    requires AllSpace(b)
    ensures RStrip(t + b) == RStrip(t)
    decreases |b|
  {
    if b == [] {
      assert t + b == t;
    } else {
      assert (t + b)[|t + b| - 1] == b[|b| - 1];
      assert (t + b)[..|t + b| - 1] == t + b[..|b| - 1];
      RStripSkip(t, b[..|b| - 1]);
    }
  }

  /** LStrip cuts a blank prefix off s. */
  lemma {:induction false} LStripSplit(s: string) returns (a: string)
    ensures s == a + LStrip(s) && AllSpace(a)
    decreases |s|
  {
    if s != [] && IsSpace(s[0]) {
      var a' := LStripSplit(s[1..]);
      a := [s[0]] + a';
      calc {
        s;
        [s[0]] + s[1..];
        [s[0]] + (a' + LStrip(s[1..]));
        a + LStrip(s);
      }
    } else {
      a := [];
      assert s == [] + s;
    }
  }

  /** RStrip cuts a blank suffix off s. */
  lemma {:induction false} RStripSplit(s: string) returns (b: string)
    ensures s == RStrip(s) + b && AllSpace(b)
    decreases |s|
  {
    if s != [] && IsSpace(s[|s| - 1]) {
      var b' := RStripSplit(s[..|s| - 1]);
      b := b' + [s[|s| - 1]];
      calc {
        s;
        s[..|s| - 1] + [s[|s| - 1]];
        (RStrip(s[..|s| - 1]) + b') + [s[|s| - 1]];
        RStrip(s) + b;
      }
    } else {
      b := [];
      assert s == s + [];
    }
  }

  /** The whitespace cut off by Strip: s is a + Strip(s) + b with a, b blank. */
  lemma StripSplit(s: string) returns (a: string, b: string)
    ensures s == a + Strip(s) + b
    ensures AllSpace(a) && AllSpace(b)
  {
    a := LStripSplit(s);
    b := RStripSplit(LStrip(s));
    assert a + (Strip(s) + b) == a + Strip(s) + b;
  }

  lemma AllSpaceConcat(a: string, b: string)
    requires AllSpace(a) && AllSpace(b)
    ensures AllSpace(a + b)
  {
    forall i | 0 <= i < |a + b| ensures IsSpace((a + b)[i]) {
      if i < |a| { assert (a + b)[i] == a[i]; } else { assert (a + b)[i] == b[i - |a|]; }
    }
  }

  /** Strip is determined by its shape: whatever blank text surrounds a core
      with no whitespace at its ends, Strip returns exactly that core. */
  lemma StripUnique(a: string, r: string, b: string)
    requires AllSpace(a) && AllSpace(b) && NoSpaceAtEnds(r)
    ensures Strip(a + r + b) == r
  {
    assert a + (r + b) == a + r + b;
    LStripSkip(a, r + b);
    if r == [] {
      assert r + b == b;
      LStripSkip(b, []);
      assert b + [] == b;
    } else {
      assert (r + b)[0] == r[0];
      assert LStrip(r + b) == r + b;
      RStripSkip(r, b);
    }
  }

  /** Surrounding a string with more whitespace does not change its strip. */
  lemma StripPadding(p: string, s: string, q: string)
    requires AllSpace(p) && AllSpace(q)
    ensures Strip(p + s + q) == Strip(s)
  {
    var a, b := StripSplit(s);
    assert p + (a + Strip(s) + b) + q == (p + a) + Strip(s) + (b + q);
    AllSpaceConcat(p, a);
    AllSpaceConcat(b, q);
    StripUnique(p + a, Strip(s), b + q);
  }

  /** Text with no whitespace at its ends is its own strip. */
  lemma StripOfTrimmed(r: string)
    requires NoSpaceAtEnds(r)
    ensures Strip(r) == r
  {
    assert LStrip(r) == r;
    assert RStrip(r) == r;
  }

  /** Stripping twice is stripping once. */
  lemma StripIdempotent(s: string)
    ensures Strip(Strip(s)) == Strip(s)
  {
    StripOfTrimmed(Strip(s));
  }

  // ---------------------------------------------------------------------------
  // str.lower(), restricted to ASCII letters
  // ---------------------------------------------------------------------------

  function LowerChar(c: char): (d: char)
    ensures 'A' <= c <= 'Z' ==> d as int == c as int + 32
    ensures !('A' <= c <= 'Z') ==> d == c
  {
    if 'A' <= c <= 'Z' then (c as int + 32) as char else c
  }

  /** str.lower() on ASCII: every upper-case ASCII letter becomes lower case,
      every other character stays, and the length is the same. */
  function Lower(s: string): (r: string)
    ensures |r| == |s|
    ensures forall i :: 0 <= i < |s| ==> r[i] == LowerChar(s[i])
  {
    if s == [] then [] else [LowerChar(s[0])] + Lower(s[1..])
  }

  // ---------------------------------------------------------------------------
  // str.replace(c, "") and str.replace(c, d) for single characters
  // ---------------------------------------------------------------------------

  /** r is obtained from s by deleting some characters, keeping order. */
  predicate IsSubsequence(r: string, s: string)
    decreases |s|
  {
    if r == [] then true
    else if s == [] then false
    else if r[0] == s[0] then IsSubsequence(r[1..], s[1..])
    else IsSubsequence(r, s[1..])
  }

  /** s.replace(c, ""): every occurrence of c deleted, the rest kept in order. */
  function RemoveAll(s: string, c: char): (r: string)
    ensures c !in r
    ensures |r| == |s| - multiset(s)[c]
    ensures multiset(r) == multiset(s)[c := 0]
    ensures IsSubsequence(r, s)
    decreases |s|
  {
    if s == [] then []
    else
      assert s == [s[0]] + s[1..];
      if s[0] == c then RemoveAll(s[1..], c) else [s[0]] + RemoveAll(s[1..], c)
  }

  /** A subsequence of s that avoids c is at most as long as s without its c's. */
  lemma {:induction false} SubsequenceAvoidingBound(t: string, s: string, c: char)
    requires IsSubsequence(t, s) && c !in t
    ensures |t| <= |s| - multiset(s)[c]
    decreases |s|
  {
    if t != [] {
      assert s == [s[0]] + s[1..];
      if t[0] == s[0] {
        SubsequenceAvoidingBound(t[1..], s[1..], c);
      } else {
        SubsequenceAvoidingBound(t, s[1..], c);
      }
    }
  }

  /** RemoveAll is the only way to delete characters from s that leaves no c
      and keeps every other character: any such subsequence equals it. */
  lemma {:induction false} RemoveAllUnique(t: string, s: string, c: char)
    requires IsSubsequence(t, s) && c !in t
    requires |t| == |s| - multiset(s)[c]
    ensures t == RemoveAll(s, c)
    decreases |s|
  {
    if s != [] {
      assert s == [s[0]] + s[1..];
      if s[0] == c {
        if t != [] {
          assert t[0] != s[0];
          RemoveAllUnique(t, s[1..], c);
        }
      } else if t == [] {
        assert false;
      } else if t[0] == s[0] {
        RemoveAllUnique(t[1..], s[1..], c);
        assert t == [t[0]] + t[1..];
      } else {
        SubsequenceAvoidingBound(t, s[1..], c);
        assert false;
      }
    }
  }

  /** Deleting c changes s exactly when s contains c. */
  lemma {:induction false} RemoveAllIdentity(s: string, c: char)
    ensures RemoveAll(s, c) == s <==> c !in s
    decreases |s|
  {
    if s != [] {
      RemoveAllIdentity(s[1..], c);
      assert s == [s[0]] + s[1..];
      if s[0] == c {
        assert |RemoveAll(s, c)| < |s|;
      }
    }
  }

  /** Deleting a character twice is deleting it once. */
  lemma RemoveAllIdempotent(s: string, c: char)
    ensures RemoveAll(RemoveAll(s, c), c) == RemoveAll(s, c)
  {
    RemoveAllIdentity(RemoveAll(s, c), c);
  }

  /** Deleting a character distributes over concatenation. */
  lemma {:induction false} RemoveAllConcat(s: string, t: string, c: char)
    ensures RemoveAll(s + t, c) == RemoveAll(s, c) + RemoveAll(t, c)
    decreases |s|
  {
    if s == [] {
      assert s + t == t;
    } else {
      assert (s + t)[0] == s[0];
      assert (s + t)[1..] == s[1..] + t;
      RemoveAllConcat(s[1..], t, c);
    }
  }

  /** s.replace(c, d): every occurrence of c becomes d, all else unchanged. */
  function ReplaceChar(s: string, c: char, d: char): (r: string)
    ensures |r| == |s|
    ensures forall i :: 0 <= i < |s| ==> r[i] == (if s[i] == c then d else s[i])
    ensures c != d ==> c !in r
  {
    if s == [] then []
    else [if s[0] == c then d else s[0]] + ReplaceChar(s[1..], c, d)
  }

  // ---------------------------------------------------------------------------
  // s[:n] and dict.get
  // ---------------------------------------------------------------------------

  /** s[:n] for n >= 0: the first n characters, or all of s if it is shorter. */
  function Take(s: string, n: nat): (r: string)
    ensures |r| == if n <= |s| then n else |s|
    ensures forall i :: 0 <= i < |r| ==> r[i] == s[i]
  {
    if n <= |s| then s[..n] else s
  }

  /** d.get(k, default). */
  function Get<K, V>(d: map<K, V>, k: K, default: V): (v: V)
    ensures k in d ==> v == d[k]
    ensures k !in d ==> v == default
  {
    if k in d then d[k] else default
  }
}
