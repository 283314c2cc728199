/** Python's `str.strip()` with no arguments, over the exact set of characters
    Python's `str.isspace()` accepts. */
module Text {

  /** The whitespace characters Python strips: the ASCII controls TAB..CR and
      FS..US, SPACE, NEL, NO-BREAK SPACE and the Unicode space separators. */
  predicate IsSpace(c: char) {
    var n := c as int;
    || (0x09 <= n <= 0x0D)
    || (0x1C <= n <= 0x20)
    || n == 0x85 || n == 0xA0 || n == 0x1680
    || (0x2000 <= n <= 0x200A)
    || n == 0x2028 || n == 0x2029 || n == 0x202F || n == 0x205F || n == 0x3000
  }

  predicate AllSpace(s: string) {
    forall i :: 0 <= i < |s| ==> IsSpace(s[i])
  }

  /** Neither end of `s` is whitespace (vacuously true of the empty string). */
  predicate Tight(s: string) {
    s == [] || (!IsSpace(s[0]) && !IsSpace(s[|s| - 1]))
  }

  /** `s.lstrip()`: drops the longest whitespace prefix. */
  function TrimStart(s: string): (r: string)
    ensures |r| <= |s|
    ensures r == [] || !IsSpace(r[0])
  {
    if |s| > 0 && IsSpace(s[0]) then TrimStart(s[1..]) else s
  }

  /** `s.rstrip()`: drops the longest whitespace suffix. */
  function TrimEnd(s: string): (r: string)
    ensures r <= s
    ensures r == [] || !IsSpace(r[|r| - 1])
  {
    if |s| > 0 && IsSpace(s[|s| - 1]) then TrimEnd(s[..|s| - 1]) else s
  }

  /** `s.strip()`. */
  function Trim(s: string): (r: string)
    ensures |r| <= |s|
    ensures Tight(r)
  {
    var t := TrimStart(s);
    var r := TrimEnd(t);
    assert r == [] || !IsSpace(r[0]) by {
      if r != [] { assert r[0] == t[0]; }
    }
    r
  }

  /** Python's `not s.strip()`: the string is empty once trimmed. */
  predicate Blank(s: string) {
    Trim(s) == []
  }

  /** A value as it is stored after `strip()` with a blank check: non-empty and
      already trimmed. */
  predicate Stripped(s: string) {
    s != [] && Trim(s) == s
  }

  lemma {:induction false} TrimStartSkipsSpace(p: string, r: string)
    requires AllSpace(p)
    requires r == [] || !IsSpace(r[0])
    ensures TrimStart(p + r) == r
    decreases |p|
  {
    if p == [] {
      assert p + r == r;
    } else {
      assert (p + r)[0] == p[0];
      assert (p + r)[1..] == p[1..] + r;
      TrimStartSkipsSpace(p[1..], r);
    }
  }

  lemma {:induction false} TrimEndSkipsSpace(r: string, q: string)
    requires AllSpace(q)
    requires r == [] || !IsSpace(r[|r| - 1])
    ensures TrimEnd(r + q) == r
    decreases |q|
  {
    if q == [] {
      assert r + q == r;
    } else {
      var n := |r + q|;
      assert (r + q)[n - 1] == q[|q| - 1];
      assert (r + q)[..n - 1] == r + q[..|q| - 1];
      TrimEndSkipsSpace(r, q[..|q| - 1]);
    }
  }

  /** `strip()` is determined by its two observable properties: whatever is
      removed on either side is whitespace, and what remains starts and ends
      with a non-space character. */
  lemma TrimCharacterised(s: string, p: string, r: string, q: string)
    requires s == p + r + q
    requires AllSpace(p) && AllSpace(q)
    requires Tight(r)
    ensures Trim(s) == r
  {
    if r == [] {
      assert AllSpace(s) by {
        forall i | 0 <= i < |s| ensures IsSpace(s[i]) {
          if i < |p| { assert s[i] == p[i]; } else { assert s[i] == q[i - |p|]; }
        }
      }
      BlankIffAllSpace(s);
    } else {
      assert s == p + (r + q);
      TrimStartSkipsSpace(p, r + q);
      TrimEndSkipsSpace(r, q);
    }
  }

  lemma TrimUnfold(s: string)
    ensures Trim(s) == TrimEnd(TrimStart(s))
  {
  }

  /** `lstrip()` removes a whitespace prefix. */
  lemma {:induction false} TrimStartSplit(s: string) returns (p: string)
    ensures s == p + TrimStart(s) && AllSpace(p)
    decreases |s|
  {
    if |s| > 0 && IsSpace(s[0]) {
      var p' := TrimStartSplit(s[1..]);
      p := [s[0]] + p';
      assert s == [s[0]] + s[1..];
    } else {
      p := [];
    }
  }

  /** `rstrip()` removes a whitespace suffix. */
  lemma {:induction false} TrimEndSplit(s: string) returns (q: string)
    ensures s == TrimEnd(s) + q && AllSpace(q)
    decreases |s|
  {
    if |s| > 0 && IsSpace(s[|s| - 1]) {
      var q' := TrimEndSplit(s[..|s| - 1]);
      q := q' + [s[|s| - 1]];
      assert s == s[..|s| - 1] + [s[|s| - 1]];
    } else {
      q := [];
    }
  }

  lemma {:induction false} StripParts(s: string) returns (p: string, r: string, q: string)
    ensures r == TrimEnd(TrimStart(s))
    ensures s == p + r + q
    ensures AllSpace(p) && AllSpace(q)
  {
    p := TrimStartSplit(s);
    q := TrimEndSplit(TrimStart(s));
    r := TrimEnd(TrimStart(s));
    assert p + r + q == p + (r + q);
  }

  /** What `strip()` removes is a whitespace prefix and a whitespace suffix. */
  lemma TrimSplit(s: string) returns (p: string, q: string)
    ensures s == p + Trim(s) + q
    ensures AllSpace(p) && AllSpace(q)
  {
    var r;
    p, r, q := StripParts(s);
    TrimUnfold(s);
  }

  /** A string is blank exactly when it consists of whitespace only. */
  lemma BlankIffAllSpace(s: string)
    ensures Blank(s) <==> AllSpace(s)
  {
    var p, q := TrimSplit(s);
    if Blank(s) {
      assert s == p + q;
      forall i | 0 <= i < |s| ensures IsSpace(s[i]) {
        if i < |p| { assert s[i] == p[i]; } else { assert s[i] == q[i - |p|]; }
      }
    } else {
      var r := Trim(s);
      assert s[|p|] == r[0];
    }
  }

  /** A string with no whitespace at either end is left as it is. */
  lemma TrimTight(s: string)
    requires Tight(s)
    ensures Trim(s) == s
  {
    assert s == [] + s + [];
    TrimCharacterised(s, [], s, []);
  }

  /** Stripping twice is stripping once. */
  lemma TrimIdempotent(s: string)
    ensures Trim(Trim(s)) == Trim(s)
  {
    TrimTight(Trim(s));
  }

  /** A non-blank input yields a value that is stored as-is by a later strip. */
  lemma TrimStripped(s: string)
    requires !Blank(s)
    ensures Stripped(Trim(s))
  {
    TrimIdempotent(s);
  }
}
