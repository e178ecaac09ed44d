/**
 The string primitives the chat agent relies on: Python's `str.strip()` with no
 argument, `str.lower()`, `str.startswith` and the substring test `t in s`.
 */
module Text {

  /** Python's notion of whitespace for `str.strip()` / `str.isspace()`. */
  predicate IsSpace(c: char) {
    || ('\U{0009}' <= c <= '\U{000D}')
    || ('\U{001C}' <= c <= '\U{0020}')
    || c == '\U{0085}' || c == '\U{00A0}' || c == '\U{1680}'
    || ('\U{2000}' <= c <= '\U{200A}')
    || c == '\U{2028}' || c == '\U{2029}' || c == '\U{202F}'
    || c == '\U{205F}' || c == '\U{3000}'
  }

  predicate AllSpace(s: string) {
    forall i | 0 <= i < |s| :: IsSpace(s[i])
  }

  /** Number of whitespace characters at the front of `s`. */
  function LeadingSpaces(s: string): (n: nat)
    ensures n <= |s|
  {
    if |s| > 0 && IsSpace(s[0]) then LeadingSpaces(s[1..]) + 1 else 0
  }

  /** `str.strip()`: `s` without the whitespace at either end. */
  function Strip(s: string): (r: string)
    ensures |r| <= |s|
  {
    if |s| > 0 && IsSpace(s[0]) then Strip(s[1..])
    else if |s| > 0 && IsSpace(s[|s| - 1]) then Strip(s[..|s| - 1])
    else s
  }

  /** `r` is empty or neither starts nor ends with whitespace. */
  predicate Trimmed(r: string) {
    r == [] || (!IsSpace(r[0]) && !IsSpace(r[|r| - 1]))
  }

  /**
   `r` is the piece of `s` starting at `i`, with only whitespace before and after
   it in `s`, and it is empty or neither starts nor ends with whitespace.
   */
  predicate StripsTo(s: string, i: nat, r: string) {
    && i + |r| <= |s| && r == s[i..i + |r|]
    && AllSpace(s[..i]) && AllSpace(s[i + |r|..])
    && Trimmed(r)
  }

  /** What strip() returns: the piece of `s` after its leading whitespace, as StripsTo describes. */
  lemma {:induction false} StripShape(s: string)
    ensures StripsTo(s, LeadingSpaces(s), Strip(s))
  {
    if |s| > 0 && IsSpace(s[0]) {
      StripShape(s[1..]);
      StripsToFront(s, LeadingSpaces(s[1..]), Strip(s[1..]));
    } else if |s| > 0 && IsSpace(s[|s| - 1]) {
      var t := s[..|s| - 1];
      StripShape(t);
      assert LeadingSpaces(t) == 0 by {
        if |t| > 0 {
          assert t[0] == s[0];
        }
      }
      StripsToBack(s, Strip(t));
    } else {
      assert s[0..|s|] == s && s[..0] == [] && s[|s|..] == [];
    }
  }

  /** A whitespace character in front moves the stripped piece one place on. */
  lemma StripsToFront(s: string, i: nat, r: string)
    requires |s| > 0 && IsSpace(s[0]) && StripsTo(s[1..], i, r)
    ensures StripsTo(s, i + 1, r)
  {
    var t := s[1..];
    assert s[i + 1..i + 1 + |r|] == t[i..i + |r|];
    assert s[..i + 1] == [s[0]] + t[..i];
    assert s[i + 1 + |r|..] == t[i + |r|..];
  }

  /** A whitespace character at the back joins the whitespace after the stripped piece. */
  lemma StripsToBack(s: string, r: string)
    requires |s| > 0 && IsSpace(s[|s| - 1]) && StripsTo(s[..|s| - 1], 0, r)
    ensures StripsTo(s, 0, r)
  {
    var t := s[..|s| - 1];
    assert s[0..|r|] == t[0..|r|];
    assert s[|r|..] == t[|r|..] + [s[|s| - 1]];
  }

  /**
   StripsTo determines its piece: whatever piece of `s` has only whitespace
   around it and none at its ends is what strip() returns.
   */
  lemma StripCharacterized(s: string, i: nat, r: string)
    requires StripsTo(s, i, r)
    ensures Strip(s) == r
  {
    var L, q := LeadingSpaces(s), Strip(s);
    StripShape(s);
    var e, f := i + |r|, L + |q|;
    SpaceBefore(s, i);
    SpaceBefore(s, L);
    SpaceAfter(s, e);
    SpaceAfter(s, f);
    if r != [] {
      assert s[i] == r[0] && s[e - 1] == r[|r| - 1];
      assert L == i;
      assert f == e;
    }
  }

  /** Index form of AllSpace on a prefix. */
  lemma SpaceBefore(s: string, i: nat)
    requires i <= |s| && AllSpace(s[..i])
    ensures forall k | 0 <= k < i :: IsSpace(s[k])
  {
    forall k | 0 <= k < i ensures IsSpace(s[k]) {
      assert s[..i][k] == s[k];
    }
  }

  /** Index form of AllSpace on a suffix. */
  lemma SpaceAfter(s: string, i: nat)
    requires i <= |s| && AllSpace(s[i..])
    ensures forall k | i <= k < |s| :: IsSpace(s[k])
  {
    forall k | i <= k < |s| ensures IsSpace(s[k]) {
      assert s[i..][k - i] == s[k];
    }
  }

  /** Whitespace added around a string does not change what strip() returns. */
  lemma {:induction false} StripPadded(a: string, t: string, b: string)
    requires AllSpace(a) && AllSpace(b)
    ensures Strip(a + t + b) == Strip(t)
  {
    var s, r, i := a + t + b, Strip(t), LeadingSpaces(t);
    StripShape(t);
    var j := |a| + i;
    assert s[j..j + |r|] == t[i..i + |r|];
    assert s[..j] == a + t[..i];
    assert s[j + |r|..] == t[i + |r|..] + b;
    StripCharacterized(s, j, r);
  }

  /** strip() is idempotent. */
  lemma StripIdempotent(s: string)
    ensures Strip(Strip(s)) == Strip(s)
  {
    var r := Strip(s);
    StripShape(s);
    assert r[0..|r|] == r;
    StripCharacterized(r, 0, r);
  }

  /** ASCII `str.lower()` on one character. */
  function LowerChar(c: char): char {
    if 'A' <= c <= 'Z' then (c as int - 'A' as int + 'a' as int) as char else c
  }

  /** `str.lower()`: every character mapped through LowerChar, length kept. */
  function Lower(s: string): (r: string)
    ensures |r| == |s|
    ensures forall k | 0 <= k < |s| :: r[k] == LowerChar(s[k])
  {
    if s == [] then [] else [LowerChar(s[0])] + Lower(s[1..])
  }

  /** Lower-casing works character by character, so it distributes over +. */
  lemma LowerAppend(a: string, b: string)
    ensures Lower(a + b) == Lower(a) + Lower(b)
  {
  }

  /** Lower-casing leaves whitespace untouched. */
  lemma LowerKeepsSpace(s: string)
    requires AllSpace(s)
    ensures Lower(s) == s
  {
  }

  predicate StartsWith(s: string, prefix: string) {
    |prefix| <= |s| && s[..|prefix|] == prefix
  }

  /** The substring `t` occurs in `s` at position `i`. */
  predicate OccursAt(s: string, t: string, i: int) {
    0 <= i && i + |t| <= |s| && s[i..i + |t|] == t
  }

  /** Python's `t in s` for strings. */
  predicate Contains(s: string, t: string)
    decreases |s|
  {
    StartsWith(s, t) || (|s| > 0 && Contains(s[1..], t))
  }

  /** `t in s` holds exactly when `t` occurs at some position of `s`. */
  lemma {:induction false} ContainsIff(s: string, t: string)
    ensures Contains(s, t) <==> exists i :: OccursAt(s, t, i)
    decreases |s|
  {
    if StartsWith(s, t) {
      assert OccursAt(s, t, 0);
    } else if |s| > 0 {
      ContainsIff(s[1..], t);
      if Contains(s[1..], t) {
        var i :| OccursAt(s[1..], t, i);
        assert s[i + 1..i + 1 + |t|] == s[1..][i..i + |t|];
        assert OccursAt(s, t, i + 1);
      }
      if i :| OccursAt(s, t, i) {
        assert i != 0;
        assert s[1..][i - 1..i - 1 + |t|] == s[i..i + |t|];
        assert OccursAt(s[1..], t, i - 1);
      }
    }
  }

  /** A substring that holds no whitespace at all survives strip(). */
  lemma ContainsSurvivesStrip(s: string, t: string)
    requires t != [] && Contains(s, t)
    requires forall k | 0 <= k < |t| :: !IsSpace(t[k])
    ensures Contains(Strip(s), t)
  {
    ContainsIff(s, t);
    var p :| OccursAt(s, t, p);
    OccursInStrip(s, t, p);
    ContainsIff(Strip(s), t);
  }

  /** An occurrence of a whitespace-free `t` lies inside the stripped part. */
  lemma OccursInStrip(s: string, t: string, p: int)
    requires t != [] && OccursAt(s, t, p)
    requires forall k | 0 <= k < |t| :: !IsSpace(t[k])
    ensures OccursAt(Strip(s), t, p - LeadingSpaces(s))
  {
    var r, i := Strip(s), LeadingSpaces(s);
    StripShape(s);
    var e := p + |t| - 1;
    assert i <= p by {
      SpaceBefore(s, i);
      assert s[p] == t[0];
    }
    assert e < i + |r| by {
      SpaceAfter(s, i + |r|);
      assert s[e] == t[|t| - 1];
    }
    SliceOfSlice(s, i, i + |r|, p - i, p - i + |t|);
  }

  /** A slice of a slice is a slice of the original. */
  lemma SliceOfSlice(s: string, a: nat, b: nat, c: nat, d: nat)
    requires a <= b <= |s| && c <= d <= b - a
    ensures s[a..b][c..d] == s[a + c..a + d]
  {
    assert forall k | 0 <= k < d - c :: s[a..b][c..d][k] == s[a + c + k];
  }

  /** A lower-cased occurrence of `u` in `s` is an occurrence in Lower(s). */
  lemma ContainsLower(s: string, u: string)
    requires Contains(s, u)
    ensures Contains(Lower(s), Lower(u))
  {
    ContainsIff(s, u);
    var p :| OccursAt(s, u, p);
    assert Lower(s)[p..p + |u|] == Lower(u);
    assert OccursAt(Lower(s), Lower(u), p);
    ContainsIff(Lower(s), Lower(u));
  }
}
