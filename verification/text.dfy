/** String helpers with JavaScript / MongoDB meaning: `String.prototype.trim`,
    the case-insensitive `/^name$/i` match and the binary string order MongoDB
    sorts by. Dafny's `char` is a Unicode scalar value, so comparing chars
    compares code points, which is the order of UTF-8 bytes. */
module Text {

  /** The characters `trim` strips: ECMAScript WhiteSpace and LineTerminator. */
  predicate IsTrimmable(c: char) {
    var n := c as int;
    n == 0x09 || n == 0x0A || n == 0x0B || n == 0x0C || n == 0x0D || n == 0x20
    || n == 0xA0 || n == 0x1680 || (0x2000 <= n <= 0x200A) || n == 0x2028
    || n == 0x2029 || n == 0x202F || n == 0x205F || n == 0x3000 || n == 0xFEFF
  }

  /** No trimmable character at either end. */
  predicate IsTrimmed(s: string) {
    |s| == 0 || (!IsTrimmable(s[0]) && !IsTrimmable(s[|s| - 1]))
  }

  /** `t` is `s[i..]` cut short, with everything before `i` and after the cut
      trimmable. */
  ghost predicate TrimsAt(t: string, s: string, i: int) {
    && 0 <= i <= |s| - |t|
    && t == s[i..i + |t|]
    && (forall k | 0 <= k < i :: IsTrimmable(s[k]))
    && (forall k | i + |t| <= k < |s| :: IsTrimmable(s[k]))
  }

  /** `t` is `s` with a run of trimmable characters removed from each end and
      nothing else: the relational meaning of `trim`. */
  ghost predicate IsTrimOf(t: string, s: string) {
    IsTrimmed(t) && exists i :: TrimsAt(t, s, i)
  }

  /** `trim`'s left half: drop leading trimmable characters. */
  function TrimStart(s: string): string
    decreases |s|
  {
    if |s| > 0 && IsTrimmable(s[0]) then TrimStart(s[1..]) else s
  }

  /** `TrimStart` keeps a suffix and drops only trimmable characters, up to
      the first one it must keep. */
  lemma {:induction false} TrimStartSpec(s: string)
    ensures var r := TrimStart(s);
            && |r| <= |s| && r == s[|s| - |r|..]
            && (forall k | 0 <= k < |s| - |r| :: IsTrimmable(s[k]))
            && (|r| == 0 || !IsTrimmable(r[0]))
    decreases |s|
  {
    if |s| > 0 && IsTrimmable(s[0]) {
      TrimStartSpec(s[1..]);
      var r := TrimStart(s);
      assert r == s[1..][|s| - 1 - |r|..];
      forall k | 0 <= k < |s| - |r| ensures IsTrimmable(s[k]) {
        if k > 0 {
          assert s[k] == s[1..][k - 1];
        }
      }
    }
  }

  /** `trim`'s right half: drop trailing trimmable characters. */
  function TrimEnd(s: string): string
    decreases |s|
  {
    if |s| > 0 && IsTrimmable(s[|s| - 1]) then TrimEnd(s[..|s| - 1]) else s
  }

  /** `TrimEnd` keeps a prefix and drops only trimmable characters, back to
      the last one it must keep. */
  lemma {:induction false} TrimEndSpec(s: string)
    ensures var r := TrimEnd(s);
            && |r| <= |s| && r == s[..|r|]
            && (forall k | |r| <= k < |s| :: IsTrimmable(s[k]))
            && (|r| == 0 || !IsTrimmable(r[|r| - 1]))
    decreases |s|
  {
    if |s| > 0 && IsTrimmable(s[|s| - 1]) {
      TrimEndSpec(s[..|s| - 1]);
      var r := TrimEnd(s);
      assert r == s[..|s| - 1][..|r|];
      forall k | |r| <= k < |s| ensures IsTrimmable(s[k]) {
        if k < |s| - 1 {
          assert s[k] == s[..|s| - 1][k];
        }
      }
    }
  }

  /** JavaScript's `s.trim()`. */
  function Trim(s: string): string {
    TrimEnd(TrimStart(s))
  }

  /** `Trim` removes exactly the trimmable run at each end. */
  lemma TrimSpec(s: string)
    ensures IsTrimOf(Trim(s), s)
  {
    TrimWitness(s, TrimStart(s), Trim(s));
  }

  lemma TrimWitness(s: string, a: string, r: string)
    requires a == TrimStart(s) && r == TrimEnd(a)
    ensures IsTrimOf(r, s)
  {
    TrimStartSpec(s);
    TrimEndSpec(a);
    var i := |s| - |a|;
    assert a == s[i..];
    assert r == a[..|r|];
    assert r == s[i..i + |r|];
    forall k | i + |r| <= k < |s| ensures IsTrimmable(s[k]) {
      assert s[k] == a[k - i];
    }
    assert forall k | 0 <= k < i :: IsTrimmable(s[k]);
    if |r| > 0 {
      assert r[0] == a[0];
    }
    assert TrimsAt(r, s, i);
  }

  /** Every character of `s` is one `trim` strips. */
  predicate IsBlank(s: string) {
    forall k | 0 <= k < |s| :: IsTrimmable(s[k])
  }

  /** `trim` gives the empty string exactly for blank strings. */
  lemma TrimEmptyIffBlank(s: string)
    ensures Trim(s) == "" <==> IsBlank(s)
  {
    TrimSpec(s);
    var t := Trim(s);
    var i :| TrimsAt(t, s, i);
    if |t| > 0 {
      assert t[0] == s[i];
    }
  }

  /** Trimming an already trimmed string changes nothing. */
  lemma TrimOfTrimmed(s: string)
    requires IsTrimmed(s)
    ensures Trim(s) == s
  {
  }

  /** Trimming twice is trimming once. */
  lemma TrimIdempotent(s: string)
    ensures Trim(Trim(s)) == Trim(s)
  {
    TrimSpec(s);
    TrimOfTrimmed(Trim(s));
  }

  /** ASCII lower-casing of one character. */
  function Lower(c: char): char {
    if 'A' <= c <= 'Z' then (c as int + 32) as char else c
  }

  /** Equality ignoring ASCII case: what `/^q$/i` accepts for a plain `q`. */
  predicate SameIgnoringCase(a: string, b: string) {
    |a| == |b| && forall i | 0 <= i < |a| :: Lower(a[i]) == Lower(b[i])
  }

  /** Lexicographic order on code points (MongoDB's default string order). */
  predicate StrLe(a: string, b: string)
    decreases |a|
  {
    |a| == 0 || (|b| > 0 && (a[0] < b[0] || (a[0] == b[0] && StrLe(a[1..], b[1..]))))
  }

  lemma {:induction false} StrLeTotal(a: string, b: string)
    ensures StrLe(a, b) || StrLe(b, a)
    decreases |a|
  {
    if |a| > 0 && |b| > 0 && a[0] == b[0] {
      StrLeTotal(a[1..], b[1..]);
    }
  }

  lemma {:induction false} StrLeTransitive(a: string, b: string, c: string)
    requires StrLe(a, b) && StrLe(b, c)
    ensures StrLe(a, c)
    decreases |a|
  {
    if |a| > 0 && a[0] == b[0] && b[0] == c[0] {
      StrLeTransitive(a[1..], b[1..], c[1..]);
    }
  }
}
