/** The Python string operations the classifiers rely on: `str.strip()`,
    substring `in`, `str.split(sep)` and `sep.join(parts)`, on `seq<char>`. */
module Text {
  import opened Optional

  /** Python's `str.isspace()`: exactly the characters `str.strip()` removes. */
  predicate IsSpace(c: char) {
    var n := c as int;
    || (0x09 <= n <= 0x0D) || (0x1C <= n <= 0x20) || n == 0x85 || n == 0xA0 || n == 0x1680
    || (0x2000 <= n <= 0x200A) || n == 0x2028 || n == 0x2029 || n == 0x202F || n == 0x205F
    || n == 0x3000
  }

  predicate NoSpace(s: string) {
    forall k | 0 <= k < |s| :: !IsSpace(s[k])
  }

  /** Number of leading whitespace characters. */
  function Lead(s: string): (n: nat)
    ensures n <= |s|
    ensures forall k | 0 <= k < n :: IsSpace(s[k])
    ensures n < |s| ==> !IsSpace(s[n])
  {
    if |s| > 0 && IsSpace(s[0]) then 1 + Lead(s[1..]) else 0
  }

  /** Number of trailing whitespace characters. */
  function Trail(s: string): (n: nat)
    ensures n <= |s|
    ensures forall k | |s| - n <= k < |s| :: IsSpace(s[k])
    ensures n < |s| ==> !IsSpace(s[|s| - n - 1])
  {
    if |s| > 0 && IsSpace(s[|s| - 1]) then 1 + Trail(s[..|s| - 1]) else 0
  }

  /** `s.strip()`: the slice of `s` left after dropping whitespace at both ends. */
  function Strip(s: string): (r: string)
    ensures |r| <= |s|
    ensures Lead(s) + |r| <= |s| && r == s[Lead(s)..Lead(s) + |r|]
    ensures forall k | 0 <= k < Lead(s) :: IsSpace(s[k])
    ensures forall k | Lead(s) + |r| <= k < |s| :: IsSpace(s[k])
    ensures |r| > 0 ==> !IsSpace(r[0]) && !IsSpace(r[|r| - 1])
  {
    var t := s[Lead(s)..];
    t[..|t| - Trail(t)]
  }

  /** Leading whitespace is counted one character at a time. */
  lemma {:induction false} LeadAfterSpaces(a: string, x: string)
    requires forall k | 0 <= k < |a| :: IsSpace(a[k])
    ensures Lead(a + x) == |a| + Lead(x)
    decreases |a|
  {
    if |a| > 0 {
      assert (a + x)[0] == a[0];
      assert (a + x)[1..] == a[1..] + x;
      LeadAfterSpaces(a[1..], x);
    } else {
      assert a + x == x;
    }
  }

  /** Trailing whitespace is counted one character at a time. */
  lemma {:induction false} TrailBeforeSpaces(x: string, b: string)
    requires forall k | 0 <= k < |b| :: IsSpace(b[k])
    ensures Trail(x + b) == |b| + Trail(x)
    decreases |b|
  {
    if |b| > 0 {
      assert (x + b)[..|x + b| - 1] == x + b[..|b| - 1];
      TrailBeforeSpaces(x, b[..|b| - 1]);
    } else {
      assert x + b == x;
    }
  }

  /** Strip is determined by its defining property: whatever whitespace-only
      padding surrounds a core that neither starts nor ends with whitespace,
      stripping yields exactly that core. */
  lemma StripUnique(s: string, a: string, core: string, b: string)
    requires s == a + core + b
    requires forall k | 0 <= k < |a| :: IsSpace(a[k])
    requires forall k | 0 <= k < |b| :: IsSpace(b[k])
    requires |core| > 0 ==> !IsSpace(core[0]) && !IsSpace(core[|core| - 1])
    ensures Strip(s) == core
  {
    assert s == a + (core + b);
    LeadAfterSpaces(a, core + b);
    if |core| > 0 {
      StripCore(s, |a|, core, b);
    } else {
      assert core + b == b;
      LeadAfterSpaces(b, []);
      assert b + [] == b;
      assert Lead(s) == |s|;
    }
  }

  /** The non-empty case of `StripUnique`, once the leading whitespace is counted. */
  lemma StripCore(s: string, l: nat, core: string, b: string)
    requires l <= |s| && s[l..] == core + b && Lead(s) == l + Lead(core + b)
    requires forall k | 0 <= k < |b| :: IsSpace(b[k])
    requires |core| > 0 && !IsSpace(core[0]) && !IsSpace(core[|core| - 1])
    ensures Strip(s) == core
  {
    assert (core + b)[0] == core[0];
    assert Lead(core + b) == 0;
    TrailBeforeSpaces(core, b);
    assert Trail(core) == 0;
    var t := core + b;
    assert t[..|t| - Trail(t)] == core;
  }

  /** Stripping twice is stripping once. */
  lemma StripIdempotent(s: string)
    ensures Strip(Strip(s)) == Strip(s)
  {
    var r := Strip(s);
    assert r == [] + r + [];
    StripUnique(r, [], r, []);
  }

  /** Stripping only removes whitespace, so a character that is not
      whitespace occurs in `Strip(s)` exactly when it occurs in `s`. */
  lemma StripKeepsChar(s: string, c: char)
    requires !IsSpace(c)
    ensures c in Strip(s) <==> c in s
  {
    var r := Strip(s);
    var l := Lead(s);
    if c in s {
      var k :| 0 <= k < |s| && s[k] == c;
      assert l <= k < l + |r|;
      assert r[k - l] == c;
    }
  }

  /** `pat` occurs in `s` starting at index `i`. */
  predicate OccursAt(s: string, pat: string, i: int) {
    0 <= i && i + |pat| <= |s| && s[i..i + |pat|] == pat
  }

  /** Python's `pat in s` for strings. */
  predicate Contains(s: string, pat: string) {
    exists i | 0 <= i <= |s| - |pat| :: OccursAt(s, pat, i)
  }

  /** A needle without whitespace is found in `Strip(s)` exactly when it is found in `s`. */
  lemma StripKeepsNeedle(s: string, pat: string)
    requires |pat| > 0 && NoSpace(pat)
    ensures Contains(Strip(s), pat) <==> Contains(s, pat)
  {
    if Contains(s, pat) {
      var i :| 0 <= i <= |s| - |pat| && OccursAt(s, pat, i);
      OccursInsideStrip(s, pat, i);
    }
    if Contains(Strip(s), pat) {
      var j :| 0 <= j <= |Strip(s)| - |pat| && OccursAt(Strip(s), pat, j);
      OccursOutsideStrip(s, pat, j);
    }
  }

  /** The first occurrence of `pat` in `s` at or after `from`. */
  function IndexFrom(s: string, pat: string, from: nat): (r: Option<nat>)
    ensures r.Some? ==> from <= r.value && OccursAt(s, pat, r.value)
    ensures r.Some? ==> forall k | from <= k < r.value :: !OccursAt(s, pat, k)
    ensures r.None? ==> forall k | from <= k :: !OccursAt(s, pat, k)
    decreases |s| - from
  {
    if from + |pat| > |s| then None
    else if s[from..from + |pat|] == pat then Some(from)
    else IndexFrom(s, pat, from + 1)
  }

  /** Python's `s.find(pat)`, as an option: the first index where `pat` occurs. */
  function IndexOf(s: string, pat: string): (r: Option<nat>)
    ensures r.Some? <==> Contains(s, pat)
    ensures r.Some? ==> OccursAt(s, pat, r.value)
    ensures r.Some? ==> forall k | 0 <= k < r.value :: !OccursAt(s, pat, k)
  {
    var r := IndexFrom(s, pat, 0);
    assert r.Some? ==> OccursAt(s, pat, r.value) && r.value <= |s| - |pat|;
    r
  }

  /** Python's `s.split(sep)` for a non-empty separator: the pieces between
      the non-overlapping occurrences of `sep`, scanning left to right. */
  function Split(s: string, sep: string): (parts: seq<string>)
    requires |sep| > 0
    ensures |parts| >= 1
    ensures |parts| == 1 <==> !Contains(s, sep)
    ensures |parts| == 1 ==> parts[0] == s
    ensures |parts| > 1 ==> IndexOf(s, sep) == Some(|parts[0]|) && parts[0] == s[..|parts[0]|]
    decreases |s|
  {
    match IndexOf(s, sep)
    case None => [s]
    case Some(i) =>
      [s[..i]] + Split(s[i + |sep|..], sep)
  }

  /** An occurrence in a suffix is an occurrence in the whole string. */
  lemma OccursInSuffix(s: string, pat: string, a: nat, k: int)
    requires a <= |s|
    ensures OccursAt(s[a..], pat, k) <==> 0 <= k && OccursAt(s, pat, a + k)
  {
    if 0 <= k && k + |pat| <= |s| - a {
      assert s[a..][k..k + |pat|] == s[a + k..a + k + |pat|];
    }
  }

  /** An occurrence in a prefix is an occurrence that ends inside it. */
  lemma OccursInPrefix(s: string, pat: string, p: nat, k: int)
    requires p <= |s|
    ensures OccursAt(s[..p], pat, k) <==> k + |pat| <= p && OccursAt(s, pat, k)
  {
    if 0 <= k && k + |pat| <= p {
      assert s[..p][k..k + |pat|] == s[k..k + |pat|];
    }
  }

  /** The first piece of a split: everything before the first separator. */
  lemma SplitFirst(s: string, sep: string)
    requires |sep| > 0
    ensures IndexOf(s, sep).None? ==> Split(s, sep)[0] == s
    ensures IndexOf(s, sep).Some? ==> Split(s, sep)[0] == s[..IndexOf(s, sep).value]
  {
  }

  /** The second piece of a split is the first piece of what follows the
      first separator. */
  lemma SplitSecond(s: string, sep: string)
    requires |sep| > 0 && IndexOf(s, sep).Some?
    ensures var i := IndexOf(s, sep).value;
      |Split(s, sep)| >= 2 && Split(s, sep)[1] == Split(s[i + |sep|..], sep)[0]
  {
  }

  /** Appending whitespace does not change what stripping keeps. */
  lemma StripPadded(z: string, w: string)
    requires forall k | 0 <= k < |w| :: IsSpace(w[k])
    ensures Strip(z + w) == Strip(z)
  {
    var c := Strip(z);
    var a, b := StripSplits(z);
    assert z + w == a + c + (b + w);
    assert forall k | 0 <= k < |b + w| :: IsSpace((b + w)[k]) by {
      forall k | 0 <= k < |b + w| ensures IsSpace((b + w)[k]) {
        if k < |b| { assert (b + w)[k] == b[k]; } else { assert (b + w)[k] == w[k - |b|]; }
      }
    }
    StripUnique(z + w, a, c, b + w);
  }

  /** A string is its leading whitespace, its stripped core and its trailing whitespace. */
  lemma StripSplits(z: string) returns (a: string, b: string)
    ensures z == a + Strip(z) + b && |a| == Lead(z)
    ensures forall k | 0 <= k < |a| :: IsSpace(a[k])
    ensures forall k | 0 <= k < |b| :: IsSpace(b[k])
  {
    var l := Lead(z);
    var c := Strip(z);
    a := z[..l];
    b := z[l + |c|..];
    assert z == a + c + b;
    forall k | 0 <= k < |a| ensures IsSpace(a[k]) { assert a[k] == z[k]; }
    forall k | 0 <= k < |b| ensures IsSpace(b[k]) { assert b[k] == z[l + |c| + k]; }
  }

  /** A suffix that starts inside the middle part of a concatenation. */
  lemma SuffixOfConcat(a: string, c: string, b: string, t: nat)
    requires t <= |c|
    ensures (a + c + b)[|a| + t..] == c[t..] + b
  {
    var x := a + c + b;
    forall k | |a| + t <= k < |x| ensures x[k] == (c[t..] + b)[k - |a| - t] {
      if k < |a| + |c| { assert x[k] == c[k - |a|]; } else { assert x[k] == b[k - |a| - |c|]; }
    }
  }

  /** An occurrence in a slice is an occurrence in the whole string. */
  lemma OccursInSlice(s: string, pat: string, l: nat, c: string, j: int)
    requires l + |c| <= |s| && c == s[l..l + |c|] && OccursAt(c, pat, j)
    ensures OccursAt(s, pat, l + j)
  {
    forall t | l + j <= t < l + j + |pat| ensures s[t] == pat[t - l - j] {
      assert c[j..j + |pat|][t - l - j] == pat[t - l - j];
    }
    assert s[l + j..l + j + |pat|] == pat;
  }

  /** An occurrence of a needle without whitespace lies inside the stripped
      part of `s`. */
  lemma OccursInsideStrip(s: string, pat: string, i: int)
    requires |pat| > 0 && NoSpace(pat) && OccursAt(s, pat, i)
    ensures Lead(s) <= i && OccursAt(Strip(s), pat, i - Lead(s))
  {
    InsideBounds(s, pat, i);
    OccursInSpan(s, pat, i, Lead(s), Strip(s));
  }

  /** Such an occurrence starts and ends inside the stripped part. */
  lemma InsideBounds(s: string, pat: string, i: int)
    requires |pat| > 0 && NoSpace(pat) && OccursAt(s, pat, i)
    ensures Lead(s) <= i && i + |pat| <= Lead(s) + |Strip(s)|
  {
    CharInside(s, pat, i, 0);
    CharInside(s, pat, i, |pat| - 1);
  }

  /** Each character of such an occurrence lies inside the stripped part. */
  lemma CharInside(s: string, pat: string, i: int, t: int)
    requires NoSpace(pat) && OccursAt(s, pat, i) && 0 <= t < |pat|
    ensures Lead(s) <= i + t < Lead(s) + |Strip(s)|
  {
    OccursChar(s, pat, i, t);
    assert !IsSpace(pat[t]);
    StripBounds(s, i + t);
  }

  /** Each character of an occurrence is the needle's. */
  lemma OccursChar(s: string, pat: string, i: int, t: int)
    requires OccursAt(s, pat, i) && 0 <= t < |pat|
    ensures s[i + t] == pat[t]
  {
    assert s[i + t] == s[i..i + |pat|][t];
  }

  /** An occurrence that lies inside the span `c == s[l..l + |c|]` is one in `c`. */
  lemma OccursInSpan(s: string, pat: string, i: int, l: nat, c: string)
    requires l + |c| <= |s| && c == s[l..l + |c|]
    requires OccursAt(s, pat, i) && l <= i && i + |pat| <= l + |c|
    ensures OccursAt(c, pat, i - l)
  {
    forall t | i <= t < i + |pat| ensures c[t - l] == s[t] {
    }
    assert c[i - l..i - l + |pat|] == s[i..i + |pat|];
  }

  /** A character that is not whitespace lies inside the stripped part. */
  lemma StripBounds(s: string, i: nat)
    requires i < |s| && !IsSpace(s[i])
    ensures Lead(s) <= i < Lead(s) + |Strip(s)|
  {
  }

  /** An occurrence in the stripped part is one in `s`. */
  lemma OccursOutsideStrip(s: string, pat: string, j: int)
    requires OccursAt(Strip(s), pat, j)
    ensures OccursAt(s, pat, Lead(s) + j)
  {
    OccursInSlice(s, pat, Lead(s), Strip(s), j);
  }

  /** So the first occurrence of such a needle in `s` is its first
      occurrence in `Strip(s)`, shifted by the leading whitespace. */
  lemma IndexOfUnderStrip(s: string, pat: string)
    requires |pat| > 0 && NoSpace(pat)
    ensures IndexOf(s, pat).Some? <==> IndexOf(Strip(s), pat).Some?
    ensures IndexOf(s, pat).Some? ==> IndexOf(s, pat).value == Lead(s) + IndexOf(Strip(s), pat).value
  {
    StripKeepsNeedle(s, pat);
    if IndexOf(s, pat).Some? {
      var i := IndexOf(s, pat).value;
      var j := IndexOf(Strip(s), pat).value;
      OccursInsideStrip(s, pat, i);
      OccursOutsideStrip(s, pat, j);
    }
  }

  /** Trailing whitespace only lengthens the first piece of a split on a
      needle without whitespace, and only when there is no separator. */
  lemma SplitFirstPadded(x: string, b: string, sep: string) returns (w: string)
    requires |sep| > 0 && NoSpace(sep)
    requires forall k | 0 <= k < |b| :: IsSpace(b[k])
    ensures forall k | 0 <= k < |w| :: IsSpace(w[k])
    ensures Split(x + b, sep)[0] == Split(x, sep)[0] + w
  {
    IndexOfPadded(x, b, sep);
    SplitFirst(x + b, sep);
    SplitFirst(x, sep);
    if IndexOf(x, sep).Some? {
      var m := IndexOf(x, sep).value;
      assert (x + b)[..m] == x[..m];
      w := [];
    } else {
      w := b;
    }
  }

  /** Trailing whitespace does not move the first occurrence of a needle
      without whitespace. */
  lemma IndexOfPadded(x: string, b: string, sep: string)
    requires |sep| > 0 && NoSpace(sep)
    requires forall k | 0 <= k < |b| :: IsSpace(b[k])
    ensures IndexOf(x + b, sep) == IndexOf(x, sep)
  {
    forall k | 0 <= k ensures OccursAt(x + b, sep, k) <==> OccursAt(x, sep, k) {
      OccursPadded(x, b, sep, k);
    }
    if IndexOf(x, sep).Some? {
      assert IndexOf(x + b, sep).Some?;
    } else {
      assert IndexOf(x + b, sep).None?;
    }
  }

  /** An occurrence of such a needle in `x + b` lies inside `x`. */
  lemma OccursPadded(x: string, b: string, sep: string, k: int)
    requires |sep| > 0 && NoSpace(sep)
    requires forall k | 0 <= k < |b| :: IsSpace(b[k])
    ensures OccursAt(x + b, sep, k) <==> OccursAt(x, sep, k)
  {
    if OccursAt(x + b, sep, k) {
      assert (x + b)[k + |sep| - 1] == sep[|sep| - 1];
      assert (x + b)[k..k + |sep|] == x[k..k + |sep|];
    }
    if OccursAt(x, sep, k) {
      assert (x + b)[k..k + |sep|] == x[k..k + |sep|];
    }
  }

  /** Python's `sep.join(parts)`. */
  function Join(parts: seq<string>, sep: string): (r: string)
    ensures |parts| == 0 ==> r == []
    ensures |parts| == 1 ==> r == parts[0]
    decreases |parts|
  {
    if |parts| == 0 then []
    else if |parts| == 1 then parts[0]
    else parts[0] + sep + Join(parts[1..], sep)
  }

  /** Splitting and re-joining with the same separator gives back the string. */
  lemma {:induction false} SplitJoin(s: string, sep: string)
    requires |sep| > 0
    ensures Join(Split(s, sep), sep) == s
    decreases |s|
  {
    var idx := IndexOf(s, sep);
    if idx.Some? {
      var i := idx.value;
      var rest := s[i + |sep|..];
      var tail := Split(rest, sep);
      assert Split(s, sep) == [s[..i]] + tail;
      SplitJoin(rest, sep);
      calc {
        Join(Split(s, sep), sep);
        s[..i] + sep + Join(tail, sep);
        s[..i] + sep + rest;
        { assert s[i..i + |sep|] == sep; }
        s;
      }
    }
  }
}
