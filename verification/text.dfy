/** The Python string operations the catalogue code relies on, restricted to
    ASCII: `lower`, `title`, `strip`, `' '.join`, `split`, `replace` and `in`
    (substring test). Unicode case mapping and Unicode whitespace are not
    modelled. */
module Text {

  /** Python's `str.isspace` on ASCII: tab to carriage return (9-13), the
      separators 0x1C-0x1F, and space. */
  predicate IsSpace(c: char) {
    9 <= c as int <= 13 || 28 <= c as int <= 32
  }

  predicate IsUpper(c: char) { 'A' <= c <= 'Z' }

  predicate IsLowerLetter(c: char) { 'a' <= c <= 'z' }

  /** The cased characters of ASCII. */
  predicate IsLetter(c: char) { IsUpper(c) || IsLowerLetter(c) }

  function LowerChar(c: char): char {
    if IsUpper(c) then (c as int + 32) as char else c
  }

  function UpperChar(c: char): char {
    if IsLowerLetter(c) then (c as int - 32) as char else c
  }

  /** `s.lower()` */
  function Lower(s: string): (r: string)
    ensures |r| == |s|
    ensures forall i | 0 <= i < |s| :: r[i] == LowerChar(s[i])
  {
    seq(|s|, i requires 0 <= i < |s| => LowerChar(s[i]))
  }

  lemma LowerIdempotent(s: string)
    ensures Lower(Lower(s)) == Lower(s)
  {
  }

  lemma LowerConcat(a: string, b: string)
    ensures Lower(a + b) == Lower(a) + Lower(b)
  {
  }

  // ---------------------------------------------------------------- strip

  /** `s.lstrip()` */
  function TrimStart(s: string): string {
    if |s| > 0 && IsSpace(s[0]) then TrimStart(s[1..]) else s
  }

  /** `lstrip()` leaves the suffix of `s` that does not start with whitespace
      and drops only whitespace. */
  lemma {:induction false} TrimStartSpec(s: string)
    ensures var r := TrimStart(s);
            && |r| <= |s| && r == s[|s| - |r|..]
            && (r == [] || !IsSpace(r[0]))
            && forall i | 0 <= i < |s| - |r| :: IsSpace(s[i])
  {
    if |s| > 0 && IsSpace(s[0]) {
      TrimStartSpec(s[1..]);
    }
  }

  /** `s.rstrip()` */
  function TrimEnd(s: string): string {
    if |s| > 0 && IsSpace(s[|s| - 1]) then TrimEnd(s[..|s| - 1]) else s
  }

  /** `rstrip()` leaves the prefix of `s` that does not end with whitespace
      and drops only whitespace. */
  lemma {:induction false} TrimEndSpec(s: string)
    ensures var r := TrimEnd(s);
            && |r| <= |s| && r == s[..|r|]
            && (r == [] || !IsSpace(r[|r| - 1]))
            && forall i | |r| <= i < |s| :: IsSpace(s[i])
  {
    if |s| > 0 && IsSpace(s[|s| - 1]) {
      TrimEndSpec(s[..|s| - 1]);
    }
  }

  /** `s.strip()` */
  function Strip(s: string): string {
    TrimEnd(TrimStart(s))
  }

  predicate AllSpace(s: string) {
    forall i | 0 <= i < |s| :: IsSpace(s[i])
  }

  /** `strip()` yields a slice of its input that neither starts nor ends with
      whitespace, and everything it drops is whitespace. */
  lemma StripSpec(s: string)
    ensures exists a, b | 0 <= a <= b <= |s| :: Strip(s) == s[a..b]
                                              && AllSpace(s[..a]) && AllSpace(s[b..])
    ensures Strip(s) == [] || (!IsSpace(Strip(s)[0]) && !IsSpace(Strip(s)[|Strip(s)| - 1]))
  {
    var t := TrimStart(s);
    TrimStartSpec(s);
    TrimEndSpec(t);
    var a := |s| - |t|;
    var b := a + |TrimEnd(t)|;
    assert Strip(s) == s[a..b];
    assert AllSpace(s[..a]);
    assert AllSpace(s[b..]) by {
      forall i | 0 <= i < |s| - b ensures IsSpace(s[b..][i]) {
        assert s[b..][i] == t[|TrimEnd(t)| + i];
      }
    }
  }

  /** `strip()` returns the empty string exactly when its input is all whitespace. */
  lemma StripEmptyIff(s: string)
    ensures Strip(s) == [] <==> AllSpace(s)
  {
    var t := TrimStart(s);
    TrimStartSpec(s);
    TrimEndSpec(t);
  }

  /** Lower-casing does not move whitespace, so it commutes with `strip()`. */
  lemma LowerKeepsSpace(c: char)
    ensures IsSpace(LowerChar(c)) <==> IsSpace(c)
  {
  }

  /** `y` is the lower-cased `x` between positions `a` and `b`, and only
      whitespace lies outside them. */
  predicate CutOf(x: string, y: string, a: nat, b: nat) {
    a <= b <= |x| && y == Lower(x)[a..b] && AllSpace(x[..a]) && AllSpace(x[b..])
  }

  /** `y` is what `x.lower().strip()` leaves: a slice of the lower-cased `x`
      with only whitespace cut off either side, neither starting nor ending
      with whitespace, and holding no upper-case letter. */
  ghost predicate IsCleaned(x: string, y: string) {
    && (forall i | 0 <= i < |y| :: !IsUpper(y[i]))
    && (y == [] || (!IsSpace(y[0]) && !IsSpace(y[|y| - 1])))
    && exists a: nat, b: nat :: CutOf(x, y, a, b)
  }

  /** Where `x.lower().strip()` cuts `x`. */
  lemma StripCut(x: string) returns (a: nat, b: nat)
    ensures CutOf(x, Strip(Lower(x)), a, b)
  {
    var l := Lower(x);
    StripSpec(l);
    a, b :| 0 <= a <= b <= |l| && Strip(l) == l[a..b] && AllSpace(l[..a]) && AllSpace(l[b..]);
    forall i | 0 <= i < a ensures IsSpace(x[..a][i]) {
      LowerKeepsSpace(x[i]);
      assert l[..a][i] == LowerChar(x[i]);
    }
    forall i | 0 <= i < |x| - b ensures IsSpace(x[b..][i]) {
      LowerKeepsSpace(x[b + i]);
      assert l[b..][i] == LowerChar(x[b + i]);
    }
  }

  lemma CleanedSpec(x: string)
    ensures IsCleaned(x, Strip(Lower(x)))
  {
    var a, b := StripCut(x);
    StripSpec(Lower(x));
  }

  /** A character that is not whitespace lies inside any cut whose outside
      is all whitespace. */
  lemma NonSpaceInside(x: string, a: nat, b: nat, i: nat)
    requires a <= b <= |x| && AllSpace(x[..a]) && AllSpace(x[b..])
    requires i < |x| && !IsSpace(x[i])
    ensures a <= i < b
  {
    assert forall j | 0 <= j < a :: x[..a][j] == x[j];
    assert forall j | b <= j < |x| :: x[b..][j - b] == x[j];
  }

  /** The ends of a cut that neither starts nor ends with whitespace are not
      whitespace in `x` either. */
  lemma CutEnds(x: string, y: string, a: nat, b: nat)
    requires CutOf(x, y, a, b)
    requires y == [] || (!IsSpace(y[0]) && !IsSpace(y[|y| - 1]))
    ensures a < b ==> !IsSpace(x[a]) && !IsSpace(x[b - 1])
  {
    if a < b {
      assert y[0] == LowerChar(x[a]) && y[|y| - 1] == LowerChar(x[b - 1]);
      LowerKeepsSpace(x[a]);
      LowerKeepsSpace(x[b - 1]);
    }
  }

  /** Two cuts of `x` whose outsides are all whitespace and whose first and
      last characters are not are the same cut, or both are empty. */
  lemma SameCut(x: string, a: nat, b: nat, c: nat, d: nat)
    requires a <= b <= |x| && AllSpace(x[..a]) && AllSpace(x[b..])
    requires c <= d <= |x| && AllSpace(x[..c]) && AllSpace(x[d..])
    requires a < b ==> !IsSpace(x[a]) && !IsSpace(x[b - 1])
    requires c < d ==> !IsSpace(x[c]) && !IsSpace(x[d - 1])
    ensures (a == b && c == d) || (a == c && b == d)
  {
    if a < b {
      NonSpaceInside(x, c, d, a);
      NonSpaceInside(x, c, d, b - 1);
      NonSpaceInside(x, a, b, c);
      NonSpaceInside(x, a, b, d - 1);
    } else if c < d {
      NonSpaceInside(x, a, b, c);
    }
  }

  /** The description is complete: only `x.lower().strip()` meets it. */
  lemma CleanedUnique(x: string, y: string)
    requires IsCleaned(x, y)
    ensures y == Strip(Lower(x))
  {
    var a: nat, b: nat :| CutOf(x, y, a, b);
    var c, d := StripCut(x);
    StripSpec(Lower(x));
    CutEnds(x, y, a, b);
    CutEnds(x, Strip(Lower(x)), c, d);
    SameCut(x, a, b, c, d);
  }

  // ---------------------------------------------------------------- join

  /** `sep.join(xs)` */
  function Join(xs: seq<string>, sep: string): string
  {
    if |xs| == 0 then ""
    else if |xs| == 1 then xs[0]
    else xs[0] + sep + Join(xs[1..], sep)
  }

  /** A joined string is all whitespace exactly when every part is, provided
      the separator is. */
  lemma {:induction false} JoinAllSpace(xs: seq<string>, sep: string)
    requires AllSpace(sep)
    ensures AllSpace(Join(xs, sep)) <==> forall k | 0 <= k < |xs| :: AllSpace(xs[k])
  {
    if |xs| > 1 {
      JoinAllSpace(xs[1..], sep);
      var j := Join(xs[1..], sep);
      assert Join(xs, sep) == xs[0] + sep + j;
      if AllSpace(Join(xs, sep)) {
        forall k | 0 <= k < |xs| ensures AllSpace(xs[k]) {
          if k == 0 {
            forall i | 0 <= i < |xs[0]| ensures IsSpace(xs[0][i]) {
              assert xs[0][i] == Join(xs, sep)[i];
            }
          } else {
            forall i | 0 <= i < |j| ensures IsSpace(j[i]) {
              assert j[i] == Join(xs, sep)[|xs[0]| + |sep| + i];
            }
            assert xs[k] == xs[1..][k - 1];
          }
        }
      }
      if forall k | 0 <= k < |xs| :: AllSpace(xs[k]) {
        assert forall k | 0 <= k < |xs| - 1 :: AllSpace(xs[1..][k]) by {
          forall k | 0 <= k < |xs| - 1 ensures AllSpace(xs[1..][k]) {
            assert xs[1..][k] == xs[k + 1];
          }
        }
        assert AllSpace(xs[0]);
      }
    }
  }

  // ---------------------------------------------------------------- substring

  /** Python's `needle in hay` on strings. The empty needle occurs everywhere. */
  predicate Contains(hay: string, needle: string) {
    exists i | 0 <= i <= |hay| - |needle| :: OccursAt(hay, needle, i)
  }

  predicate OccursAt(hay: string, needle: string, i: int)
    requires 0 <= i <= |hay| - |needle|
  {
    hay[i..i + |needle|] == needle
  }

  // ---------------------------------------------------------------- split / replace

  /** `s.replace(a, b)` for single characters. */
  function ReplaceChar(s: string, a: char, b: char): (r: string)
    ensures |r| == |s|
    ensures forall i | 0 <= i < |s| :: r[i] == (if s[i] == a then b else s[i])
  {
    seq(|s|, i requires 0 <= i < |s| => if s[i] == a then b else s[i])
  }

  /** `s.split(d)` for a one-character separator: never empty, no part holds
      the separator, and joining the parts back with it gives `s` again. */
  function Split(s: string, d: char): (parts: seq<string>)
    ensures |parts| >= 1
    ensures forall k | 0 <= k < |parts| :: d !in parts[k]
    ensures Join(parts, [d]) == s
  {
    if |s| == 0 then [""]
    else
      var rest := Split(s[1..], d);
      if s[0] == d then
        assert Join([""] + rest, [d]) == [d] + Join(rest, [d]) by {
          assert ([""] + rest)[1..] == rest;
        }
        [""] + rest
      else
        var parts := [[s[0]] + rest[0]] + rest[1..];
        assert Join(parts, [d]) == s by {
          if |rest| > 1 {
            assert parts[1..] == rest[1..];
            assert Join(rest, [d]) == rest[0] + [d] + Join(rest[1..], [d]);
          }
          assert [s[0]] + s[1..] == s;
        }
        parts
  }

  // ---------------------------------------------------------------- title

  /** `str.title()` from a position whose predecessor was (or was not) cased:
      a letter is upper-cased after an uncased character and lower-cased after
      a cased one; everything else is kept. */
  function TitleFrom(s: string, prevCased: bool): (r: string)
    ensures |r| == |s|
    ensures Lower(r) == Lower(s)
  {
    if |s| == 0 then []
    else
      var c := s[0];
      var c' := if !IsLetter(c) then c else if prevCased then LowerChar(c) else UpperChar(c);
      var rest := TitleFrom(s[1..], IsLetter(c));
      assert Lower([c'] + rest) == Lower(s) by {
        LowerConcat([c'], rest);
        LowerConcat([c], s[1..]);
        assert [c] + s[1..] == s;
      }
      [c'] + rest
  }

  /** `s.title()`: it never changes the lower-case form of a string. */
  function Title(s: string): (r: string)
    ensures |r| == |s|
    ensures Lower(r) == Lower(s)
  {
    TitleFrom(s, false)
  }
}
