/**
 Residue normalisation: every `.` gap marker is removed and the remaining
 residues are upper-cased (`rec.seq.replace('.', '').upper()`). Case mapping
 is restricted to ASCII letters.
 */
module Residues {
  import Text

  /** The gap marker of IMGT-gapped alignments. */
  const Gap: char := '.'

  predicate IsLower(c: char) {
    'a' <= c <= 'z'
  }

  /** The ASCII lower-case letters, and at the same positions their capitals. */
  const Lowers: string := "abcdefghijklmnopqrstuvwxyz"
  const Capitals: string := "ABCDEFGHIJKLMNOPQRSTUVWXYZ"

  /** ASCII upper-casing of one character; every other character is unchanged. */
  function UpperChar(c: char): (u: char)
    ensures !IsLower(u)
    ensures u == c <==> !IsLower(c)
    ensures 'A' <= u <= 'Z' <==> IsLower(c) || 'A' <= c <= 'Z'
  {
    if IsLower(c) then (c as int - 32) as char else c
  }

  /** `s.replace('.', '')`. */
  function RemoveGaps(s: string): (r: string)
    ensures Gap !in r
    ensures |r| == |s| - Text.Occurrences(s, Gap)
    ensures Gap !in s ==> r == s
    ensures forall c :: c in r <==> c in s && c != Gap
  {
    if |s| == 0 then []
    else if s[0] == Gap then RemoveGaps(s[1..])
    else
      assert s == [s[0]] + s[1..];
      [s[0]] + RemoveGaps(s[1..])
  }

  /** `s.upper()`, position by position. */
  function Upper(s: string): (r: string)
    ensures |r| == |s|
    ensures forall i :: 0 <= i < |s| ==> r[i] == UpperChar(s[i])
  {
    seq(|s|, i requires 0 <= i < |s| => UpperChar(s[i]))
  }

  /** The normalised residue string stored for a kept record. */
  function Clean(s: string): (r: string)
    ensures Gap !in r
    ensures forall i :: 0 <= i < |r| ==> !IsLower(r[i])
    ensures |r| == |s| - Text.Occurrences(s, Gap)
    ensures forall c :: c in r && !('A' <= c <= 'Z') ==> c in s
  {
    Upper(RemoveGaps(s))
  }

  /** Gap removal works piecewise: the gaps of a concatenation are those of its parts. */
  lemma {:induction false} RemoveGapsAppend(a: string, b: string)
    ensures RemoveGaps(a + b) == RemoveGaps(a) + RemoveGaps(b)
  {
    if |a| == 0 {
      assert a + b == b;
    } else {
      assert (a + b)[0] == a[0];
      assert (a + b)[1..] == a[1..] + b;
      RemoveGapsAppend(a[1..], b);
    }
  }

  /** Normalisation works piecewise too. */
  lemma CleanAppend(a: string, b: string)
    ensures Clean(a + b) == Clean(a) + Clean(b)
  {
    RemoveGapsAppend(a, b);
  }

  /** Upper-casing works character by character from the front. */
  lemma UpperCons(c: char, t: string)
    ensures Upper([c] + t) == [UpperChar(c)] + Upper(t)
  {
  }

  /** Upper-casing never introduces or removes a gap, so the order of the two steps is immaterial. */
  lemma {:induction false} CleanCommutes(s: string)
    ensures RemoveGaps(Upper(s)) == Clean(s)
  {
    if |s| > 0 {
      var c, t := s[0], s[1..];
      assert s == [c] + t;
      UpperCons(c, t);
      CleanCommutes(t);
      assert Upper(s)[1..] == Upper(t);
      if c != Gap {
        UpperCons(c, RemoveGaps(t));
      }
    }
  }

  /** A string is left unchanged by normalisation exactly when it is already gap-free and upper-case. */
  lemma CleanFixedPoints(s: string)
    ensures Clean(s) == s <==> Gap !in s && forall i :: 0 <= i < |s| ==> !IsLower(s[i])
  {
    if Gap !in s && forall i :: 0 <= i < |s| ==> !IsLower(s[i]) {
      assert Clean(s) == Upper(s);
    }
  }

  /** Normalising a second time changes nothing. */
  lemma CleanIdempotent(s: string)
    ensures Clean(Clean(s)) == Clean(s)
  {
    CleanFixedPoints(Clean(s));
  }
  /** Each lower-case letter becomes its own capital. */
  lemma CapitalOfEachLetter()
    ensures |Lowers| == 26 && |Capitals| == 26
    ensures forall i :: 0 <= i < 26 ==> UpperChar(Lowers[i]) == Capitals[i]
  {
  }

  /** The same, for any character: a lower-case letter becomes the capital at its alphabet position. */
  lemma UpperCharIsCapital(c: char)
    ensures IsLower(c) ==> Lowers[c as int - 'a' as int] == c && UpperChar(c) == Capitals[c as int - 'a' as int]
  {
    CapitalOfEachLetter();
  }

  /** Normalisation from the front: a gap is dropped, any other character is upper-cased. */
  lemma CleanCons(c: char, t: string)
    ensures c == Gap ==> Clean([c] + t) == Clean(t)
    ensures c != Gap ==> Clean([c] + t) == [UpperChar(c)] + Clean(t)
  {
    CleanAppend([c], t);
    assert RemoveGaps([c]) == if c == Gap then [] else [c];
  }

  /** A gap between two runs is dropped, and each run is normalised on its own. */
  lemma CleanAcrossGap(x: string, y: string)
    ensures Clean(x + [Gap] + y) == Clean(x) + Clean(y)
  {
    CleanCons(Gap, []);
    CleanAppend(x, [Gap]);
    CleanAppend(x + [Gap], y);
  }


  /** The example strings, spelled as concatenations of their runs. */
  lemma Spelled(a: char, c: char, g: char, t: char)
    ensures [a, c, Gap, g, t, Gap, a, c] == [a, c] + [Gap] + [g, t] + [Gap] + [a, c]
    ensures [a, c, g, t, a, c] == [a, c] + [g, t] + [a, c]
  {
  }
  /** The gapped alignment `AC.GT.AC` normalises to `ACGTAC`. */
  lemma ExampleResidues(a: char, c: char, g: char, t: char)
    requires a == 'A' && c == 'C' && g == 'G' && t == 'T'
    ensures Clean([a, c, Gap, g, t, Gap, a, c]) == [a, c, g, t, a, c]
  {
    var x, y := [a, c], [g, t];
    CleanFixedPoints(x);
    CleanFixedPoints(y);
    CleanAcrossGap(x, y);
    CleanAcrossGap(x + [Gap] + y, x);
    Spelled(a, c, g, t);
  }

  /** Two non-gap characters are upper-cased one by one. */
  lemma CleanPair(p: char, q: char)
    requires p != Gap && q != Gap
    ensures Clean([p, q]) == [UpperChar(p), UpperChar(q)]
  {
    CleanCons(q, []);
    CleanCons(p, [q]);
    assert [p, q] == [p] + [q];
  }

  /** Lower-case residues are capitalised: `ac.gt` normalises to `ACGT`. */
  lemma ExampleLowerResidues(a: char, c: char, g: char, t: char)
    requires a == 'a' && c == 'c' && g == 'g' && t == 't'
    ensures Clean([a, c, Gap, g, t]) == "ACGT"
  {
    CleanPair(a, c);
    CleanPair(g, t);
    CleanAcrossGap([a, c], [g, t]);
    assert [a, c, Gap, g, t] == [a, c] + [Gap] + [g, t];
  }
}
