/** The three anchored regular expressions of the request schemas, written as sequences of
    repeated character classes (`^c1{m1,n1}c2{m2,n2}...$`), with a matcher for them and, for
    each pattern, a direct description of the strings it accepts. `\d` is read as the ASCII
    digits. */
module Patterns {
  import opened Common

  datatype CharClass =
    | Digit                   // \d
    | Span(lo: char, hi: char) // [lo-hi]
    | One(c: char)            // a literal character
    | DigitOrDash             // [\d-]

  predicate InClass(c: char, cls: CharClass)
  {
    match cls
    case Digit => IsDigit(c)
    case Span(lo, hi) => lo <= c <= hi
    case One(d) => c == d
    case DigitOrDash => IsDigit(c) || c == '-'
  }

  /** `cls{min,max}`. */
  datatype Piece = Piece(cls: CharClass, min: nat, max: nat)

  predicate AllIn(s: string, cls: CharClass)
  {
    forall i :: 0 <= i < |s| ==> InClass(s[i], cls)
  }

  /** `s` matches the whole pattern. */
  predicate Matches(ps: seq<Piece>, s: string)
    decreases |ps|
  {
    if |ps| == 0 then s == []
    else exists k :: ps[0].min <= k <= ps[0].max && k <= |s| && AllIn(s[..k], ps[0].cls) && Matches(ps[1..], s[k..])
  }

  /** `^\d{1,2}[А-Я]$`: one or two digits, then one capital letter from А (U+0410) to Я (U+042F). */
  const GradePattern: seq<Piece> := [Piece(Digit, 1, 2), Piece(Span('А', 'Я'), 1, 1)]

  /** `^\+7\d{10}$`. */
  const PhonePattern: seq<Piece> := [Piece(One('+'), 1, 1), Piece(One('7'), 1, 1), Piece(Digit, 10, 10)]

  /** `^[\d-]{10,17}$`. */
  const IsbnPattern: seq<Piece> := [Piece(DigitOrDash, 10, 17)]

  predicate CyrillicCapital(c: char)
  {
    'А' <= c <= 'Я'
  }

  /** A class name such as "5А" or "10Б". */
  predicate IsGrade(g: string)
  {
    (|g| == 2 && IsDigit(g[0]) && CyrillicCapital(g[1])) ||
    (|g| == 3 && IsDigit(g[0]) && IsDigit(g[1]) && CyrillicCapital(g[2]))
  }

  /** "+7" followed by ten digits. */
  predicate IsPhone(p: string)
  {
    |p| == 12 && p[0] == '+' && p[1] == '7' && forall i :: 2 <= i < 12 ==> IsDigit(p[i])
  }

  predicate IsIsbn(s: string)
  {
    10 <= |s| <= 17 && forall i :: 0 <= i < |s| ==> IsDigit(s[i]) || s[i] == '-'
  }

  lemma MatchesLast(p: Piece, s: string)
    ensures Matches([p], s) <==> p.min <= |s| <= p.max && AllIn(s, p.cls)
  {
    assert [p][1..] == [];
    if p.min <= |s| <= p.max && AllIn(s, p.cls) {
      assert s[..|s|] == s;
      assert Matches([p][1..], s[|s|..]);
    }
  }

  lemma GradePatternMeaning(g: string)
    ensures Matches(GradePattern, g) <==> IsGrade(g)
  {
    var letter := Piece(Span('А', 'Я'), 1, 1);
    assert GradePattern[1..] == [letter];
    forall k | 0 <= k <= |g| {
      MatchesLast(letter, g[k..]);
    }
    if IsGrade(g) {
      var k := |g| - 1;
      assert AllIn(g[..k], Digit);
      assert Matches(GradePattern[1..], g[k..]);
    }
  }

  /** A piece of fixed width `n` consumes exactly the first `n` characters. */
  lemma MatchesFixed(p: Piece, rest: seq<Piece>, s: string)
    requires p.min == p.max
    ensures Matches([p] + rest, s) <==> p.min <= |s| && AllIn(s[..p.min], p.cls) && Matches(rest, s[p.min..])
  {
    assert ([p] + rest)[0] == p;
    assert ([p] + rest)[1..] == rest;
  }

  lemma PhonePatternMeaning(p: string)
    ensures Matches(PhonePattern, p) <==> IsPhone(p)
  {
    var plus := Piece(One('+'), 1, 1);
    var seven := Piece(One('7'), 1, 1);
    var digits := Piece(Digit, 10, 10);
    assert PhonePattern == [plus] + ([seven] + [digits]);
    MatchesFixed(plus, [seven] + [digits], p);
    if 1 <= |p| {
      MatchesFixed(seven, [digits], p[1..]);
      if 2 <= |p| {
        assert p[1..][1..] == p[2..];
        MatchesLast(digits, p[2..]);
        assert AllIn(p[..1], One('+')) <==> p[0] == '+';
        assert AllIn(p[1..][..1], One('7')) <==> p[1] == '7';
        assert AllIn(p[2..], Digit) <==> forall i :: 2 <= i < |p| ==> IsDigit(p[i]) by {
          forall i | 2 <= i < |p| ensures p[2..][i - 2] == p[i] {
          }
        }
      }
    }
  }

  lemma IsbnPatternMeaning(s: string)
    ensures Matches(IsbnPattern, s) <==> IsIsbn(s)
  {
    MatchesLast(Piece(DigitOrDash, 10, 17), s);
  }
}
