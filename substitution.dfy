/**
 * The replacement-pattern language of .NET's `Regex.Replace`. The proxy builds
 * its replacement strings by splicing URI parts behind `$1`, so what reaches the
 * origin depends on how .NET reads `$` in them: `$n` and `${n}` name a group
 * (the longest run of digits is taken, and the `$` stays literal when no group
 * has that number), `$$` is a dollar sign, `$&` the whole match, `` $` `` and
 * `$'` the text before and after the match, `$+` the last group and `$_` the
 * whole input. A group number above Int32.MaxValue makes .NET throw.
 */
module Substitution {
  import opened Wrappers

  datatype Piece =
    | Literal(c: char)
    | Group(n: nat)
    | LeftPortion
    | RightPortion
    | LastGroup
    | WholeInput

  const Int32Max: nat := 0x7FFF_FFFF

  /** An ASCII decimal digit: a group number here, and `\d` in the status pattern. */
  predicate IsDigit(c: char) {
    '0' <= c <= '9'
  }

  /** How many digits `s` starts with: how far .NET's decimal scan reaches. */
  function DigitRun(s: string): (n: nat)
    ensures n <= |s|
    ensures forall i :: 0 <= i < n ==> IsDigit(s[i])
    ensures n < |s| ==> !IsDigit(s[n])
  {
    if s != [] && IsDigit(s[0]) then 1 + DigitRun(s[1..]) else 0
  }

  lemma DigitRunCons(c: char, x: string)
    requires IsDigit(c)
    ensures DigitRun([c] + x) == 1 + DigitRun(x)
  {
    assert ([c] + x)[1..] == x;
  }

  function Pow10(k: nat): (p: nat)
    ensures p >= 1
  {
    if k == 0 then 1 else 10 * Pow10(k - 1)
  }

  function DigitValue(c: char): nat
    requires IsDigit(c)
  {
    c as int - '0' as int
  }

  /** The number a string of decimal digits denotes. */
  function DecimalValue(s: string): nat
    requires forall i :: 0 <= i < |s| ==> IsDigit(s[i])
  {
    if s == [] then 0 else DigitValue(s[0]) * Pow10(|s| - 1) + DecimalValue(s[1..])
  }

  function Prepend(p: Piece, rest: Option<seq<Piece>>): Option<seq<Piece>> {
    match rest
    case None => None
    case Some(ps) => Some([p] + ps)
  }

  function Join(ps: seq<Piece>, rest: Option<seq<Piece>>): Option<seq<Piece>> {
    match rest
    case None => None
    case Some(qs) => Some(ps + qs)
  }

  /** The piece that `$` followed by one of `$&`'+_` stands for. */
  function SpecialPiece(c: char): Piece
    requires c in "$&`'+_"
  {
    match c
    case '$' => Literal('$')
    case '&' => Group(0)
    case '`' => LeftPortion
    case '\'' => RightPortion
    case '+' => LastGroup
    case _ => WholeInput
  }

  /**
   * The parse of replacement text `r` for a pattern with group numbers below
   * `groups`; None where .NET throws (a group number too large for an int).
   */
  function Parse(r: string, groups: nat): (p: Option<seq<Piece>>)
    requires groups >= 1
    ensures p.Some? ==> forall i :: 0 <= i < |p.value| && p.value[i].Group? ==> p.value[i].n < groups
    decreases |r|
  {
    if r == [] then Some([])
    else if r[0] != '$' then Prepend(Literal(r[0]), Parse(r[1..], groups))
    else
      var t := r[1..];
      if |t| >= 2 && t[0] == '{' && IsDigit(t[1]) then
        var n := DigitRun(t[1..]);
        var v := DecimalValue(t[1..1 + n]);
        if v > Int32Max then None
        else if 1 + n < |t| && t[1 + n] == '}' && v < groups then Prepend(Group(v), Parse(t[2 + n..], groups))
        else Prepend(Literal('$'), Parse(t, groups))
      else if t != [] && IsDigit(t[0]) then
        var n := DigitRun(t);
        var v := DecimalValue(t[..n]);
        if v > Int32Max then None
        else if v < groups then Prepend(Group(v), Parse(t[n..], groups))
        else Prepend(Literal('$'), Parse(t, groups))
      else if t != [] && t[0] in "$&`'+_" then Prepend(SpecialPiece(t[0]), Parse(t[1..], groups))
      else Prepend(Literal('$'), Parse(t, groups))
  }

  /** The pieces that copy `x` character by character. */
  function Literals(x: string): (ps: seq<Piece>)
    ensures |ps| == |x|
  {
    seq(|x|, i requires 0 <= i < |x| => Literal(x[i]))
  }

  lemma LiteralsCons(c: char, x: string)
    ensures Literals([c] + x) == [Literal(c)] + Literals(x)
  {
  }

  /** The text one piece produces for a match `input[start..end]` whose groups are `groups`. */
  function PieceText(p: Piece, groups: seq<string>, input: string, start: nat, end: nat): string
    requires start <= end <= |input|
  {
    match p
    case Literal(c) => [c]
    case Group(n) => if n < |groups| then groups[n] else ""
    case LeftPortion => input[..start]
    case RightPortion => input[end..]
    case LastGroup => if groups == [] then "" else groups[|groups| - 1]
    case WholeInput => input
  }

  /** The text a parsed replacement produces for one match. */
  function Expand(ps: seq<Piece>, groups: seq<string>, input: string, start: nat, end: nat): string
    requires start <= end <= |input|
  {
    if ps == [] then "" else PieceText(ps[0], groups, input, start, end) + Expand(ps[1..], groups, input, start, end)
  }

  /** Text without a dollar sign is read literally, whatever follows it. */
  lemma {:induction false} ParseLiteralText(x: string, t: string, groups: nat)
    requires groups >= 1 && '$' !in x
    ensures Parse(x + t, groups) == Join(Literals(x), Parse(t, groups))
    decreases |x|
  {
    if x == [] {
      assert x + t == t;
      assert Literals(x) == [];
      match Parse(t, groups) {
        case None =>
        case Some(qs) => assert Literals(x) + qs == qs;
      }
    } else {
      assert (x + t)[0] == x[0] && (x + t)[1..] == x[1..] + t;
      ParseLiteralText(x[1..], t, groups);
      assert Parse(x + t, groups) == Prepend(Literal(x[0]), Parse(x[1..] + t, groups));
      assert Literals(x) == [Literal(x[0])] + Literals(x[1..]);
      match Parse(t, groups) {
        case None =>
        case Some(qs) => assert [Literal(x[0])] + (Literals(x[1..]) + qs) == Literals(x) + qs;
      }
    }
  }

  /** `$n` followed by text that neither starts with a digit nor holds a dollar sign. */
  lemma GroupThenLiteralText(n: char, x: string, t: string, groups: nat)
    requires IsDigit(n) && DigitValue(n) < groups
    requires '$' !in x
    requires x + t == [] || !IsDigit((x + t)[0])
    ensures Parse(['$', n] + x + t, groups) == Prepend(Group(DigitValue(n)), Join(Literals(x), Parse(t, groups)))
  {
    var r := ['$', n] + x + t;
    assert r[1..] == [n] + (x + t);
    assert [n] + (x + t) != [] && IsDigit(([n] + (x + t))[0]);
    assert DigitRun([n] + (x + t)) == 1 by {
      assert ([n] + (x + t))[1..] == x + t;
    }
    assert ([n] + (x + t))[..1] == [n];
    assert DecimalValue([n]) == DigitValue(n) by {
      assert [n][1..] == [];
    }
    assert ([n] + (x + t))[1..] == x + t;
    ParseLiteralText(x, t, groups);
  }

  /** `$n` on its own names group n. */
  lemma ParseGroupAlone(n: char, groups: nat)
    requires IsDigit(n) && DigitValue(n) < groups
    ensures Parse(['$', n], groups) == Some([Group(DigitValue(n))])
  {
    GroupThenLiteralText(n, "", "", groups);
    assert ['$', n] + "" + "" == ['$', n];
    var e: seq<Piece> := [];
    assert Literals("") == e;
    assert Parse("", groups) == Some(e);
    assert Join(e, Some(e)) == Some(e) by {
      assert e + e == e;
    }
    assert Prepend(Group(DigitValue(n)), Some(e)) == Some([Group(DigitValue(n))]) by {
      assert [Group(DigitValue(n))] + e == [Group(DigitValue(n))];
    }
  }

  /** `$$` is a dollar sign. */
  lemma ParseDoubleDollar(t: string, groups: nat)
    requires groups >= 1
    ensures Parse("$$" + t, groups) == Prepend(Literal('$'), Parse(t, groups))
  {
    var r := "$$" + t;
    assert r[1..] == "$" + t;
    assert ("$" + t)[1..] == t;
  }

  /** `"$1" + x + "$2"`, for `x` free of dollar signs and not starting with a digit. */
  lemma ParseBetweenGroups(x: string)
    requires '$' !in x && (x == [] || !IsDigit(x[0]))
    ensures Parse("$1" + x + "$2", 3) == Some([Group(1)] + Literals(x) + [Group(2)])
  {
    assert "$1" + x + "$2" == ['$', '1'] + x + "$2";
    assert (x + "$2")[0] == if x == [] then '$' else x[0];
    GroupThenLiteralText('1', x, "$2", 3);
    ParseGroupAlone('2', 3);
    assert "$2" == ['$', '2'];
    assert Join(Literals(x), Parse("$2", 3)) == Some(Literals(x) + [Group(2)]);
    assert [Group(1)] + (Literals(x) + [Group(2)]) == [Group(1)] + Literals(x) + [Group(2)];
  }

  /** `"$1/$$$2"`: the doubled dollar sign reads as one. */
  lemma ParseDoubledDollarPath()
    ensures Parse("$1" + "/$$" + "$2", 3) == Some([Group(1)] + Literals("/$") + [Group(2)])
  {
    var tail: seq<Piece> := [Literal('$'), Group(2)];
    var whole: seq<Piece> := [Group(1), Literal('/'), Literal('$'), Group(2)];
    assert "$1" + "/$$" + "$2" == ['$', '1'] + "/" + "$$$2";
    calc {
      Parse(['$', '1'] + "/" + "$$$2", 3);
      { GroupThenLiteralText('1', "/", "$$$2", 3); }
      Prepend(Group(DigitValue('1')), Join(Literals("/"), Parse("$$$2", 3)));
      { ParseDollarThenGroup(); assert Literals("/") == [Literal('/')]; }
      Prepend(Group(1), Join([Literal('/')], Some(tail)));
      { assert [Literal('/')] + tail == [Literal('/'), Literal('$'), Group(2)]; }
      Prepend(Group(1), Some([Literal('/'), Literal('$'), Group(2)]));
      { assert [Group(1)] + [Literal('/'), Literal('$'), Group(2)] == whole; }
      Some(whole);
      { assert Literals("/$") == [Literal('/'), Literal('$')];
        assert [Group(1)] + [Literal('/'), Literal('$')] + [Group(2)] == whole; }
      Some([Group(1)] + Literals("/$") + [Group(2)]);
    }
  }

  /** `"$$$2"`: a literal dollar sign, then group 2. */
  lemma ParseDollarThenGroup()
    ensures Parse("$$$2", 3) == Some([Literal('$'), Group(2)])
  {
    assert "$$$2" == "$$" + "$2";
    ParseDoubleDollar("$2", 3);
    assert "$2" == ['$', '2'];
    ParseGroupAlone('2', 3);
    assert DigitValue('2') == 2;
    assert [Literal('$')] + [Group(2)] == [Literal('$'), Group(2)];
  }

  /** `"$1" + x`, for `x` free of dollar signs and not starting with a digit. */
  lemma ParseAfterGroup(x: string, groups: nat)
    requires groups >= 2
    requires '$' !in x && (x == [] || !IsDigit(x[0]))
    ensures Parse("$1" + x, groups) == Some([Group(1)] + Literals(x))
  {
    assert "$1" + x == ['$', '1'] + x + "";
    assert x + "" == x;
    GroupThenLiteralText('1', x, "", groups);
    assert Join(Literals(x), Parse("", groups)) == Some(Literals(x)) by {
      assert Literals(x) + [] == Literals(x);
    }
  }

  lemma ExpandAppend(ps: seq<Piece>, qs: seq<Piece>, groups: seq<string>, input: string, start: nat, end: nat)
    requires start <= end <= |input|
    ensures Expand(ps + qs, groups, input, start, end) == Expand(ps, groups, input, start, end) + Expand(qs, groups, input, start, end)
    decreases |ps|
  {
    if ps == [] {
      assert ps + qs == qs;
    } else {
      assert (ps + qs)[1..] == ps[1..] + qs;
      ExpandAppend(ps[1..], qs, groups, input, start, end);
    }
  }

  /** Literal pieces produce exactly the text they were read from. */
  lemma {:induction false} ExpandLiterals(x: string, groups: seq<string>, input: string, start: nat, end: nat)
    requires start <= end <= |input|
    ensures Expand(Literals(x), groups, input, start, end) == x
    decreases |x|
  {
    if x != [] {
      assert Literals(x)[1..] == Literals(x[1..]);
      ExpandLiterals(x[1..], groups, input, start, end);
    }
  }

  /** Group 1, literal text, group 2: the groups with the text between them. */
  lemma ExpandBetweenGroups(x: string, groups: seq<string>, input: string, start: nat, end: nat)
    requires start <= end <= |input| && |groups| >= 3
    ensures Expand([Group(1)] + Literals(x) + [Group(2)], groups, input, start, end) == groups[1] + x + groups[2]
  {
    ExpandAppend([Group(1)] + Literals(x), [Group(2)], groups, input, start, end);
    ExpandAppend([Group(1)], Literals(x), groups, input, start, end);
    ExpandLiterals(x, groups, input, start, end);
    assert Expand([Group(2)], groups, input, start, end) == groups[2] by {
      assert [Group(2)][1..] == [];
    }
    assert Expand([Group(1)], groups, input, start, end) == groups[1] by {
      assert [Group(1)][1..] == [];
    }
  }

  /** Group 1 followed by literal text. */
  lemma ExpandAfterGroup(x: string, groups: seq<string>, input: string, start: nat, end: nat)
    requires start <= end <= |input| && |groups| >= 2
    ensures Expand([Group(1)] + Literals(x), groups, input, start, end) == groups[1] + x
  {
    ExpandAppend([Group(1)], Literals(x), groups, input, start, end);
    ExpandLiterals(x, groups, input, start, end);
    assert Expand([Group(1)], groups, input, start, end) == groups[1] by {
      assert [Group(1)][1..] == [];
    }
  }

  lemma {:induction false} DecimalValueBound(s: string)
    requires forall i :: 0 <= i < |s| ==> IsDigit(s[i])
    ensures DecimalValue(s) < Pow10(|s|)
  {
    if s != [] {
      DecimalValueBound(s[1..]);
      LeadingDigitBound(DigitValue(s[0]), Pow10(|s| - 1), DecimalValue(s[1..]));
    }
  }

  lemma LeadingDigitBound(d: nat, p: nat, rest: nat)
    requires d <= 9 && rest < p
    ensures d * p + rest < 10 * p
  {
    assert (9 - d) * p >= 0;
  }

  lemma Pow10Monotone(j: nat, k: nat)
    requires j <= k
    ensures Pow10(j) <= Pow10(k)
  {
    if j < k { Pow10Monotone(j, k - 1); }
  }

  /** `$` and a number that names no group, within the Int32 range, leaves the `$` as text. */
  lemma ParseUnknownGroup(t: string, groups: nat)
    requires groups >= 1 && t != [] && IsDigit(t[0])
    requires groups <= DecimalValue(t[..DigitRun(t)]) <= Int32Max
    ensures Parse("$" + t, groups) == Prepend(Literal('$'), Parse(t, groups))
  {
    var r := "$" + t;
    assert r[0] == '$' && r[1..] == t;
  }

  /** `$` and a number above Int32.MaxValue: .NET throws, whatever follows. */
  lemma ParseOverflowingGroup(t: string, groups: nat)
    requires groups >= 1 && t != [] && IsDigit(t[0])
    requires DecimalValue(t[..DigitRun(t)]) > Int32Max
    ensures Parse("$" + t, groups) == None
  {
    var r := "$" + t;
    assert r[0] == '$' && r[1..] == t;
  }

  /** The digit run is exactly `k` long when `k` digits are followed by a non-digit or the end. */
  lemma DigitRunExact(s: string, k: nat)
    requires k <= |s| && forall i :: 0 <= i < k ==> IsDigit(s[i])
    requires k < |s| ==> !IsDigit(s[k])
    ensures DigitRun(s) == k
  {
  }

  /** Eleven nines form a number above Int32.MaxValue. */
  lemma ElevenNines(t: string)
    requires |t| >= 12 && t[11] == '$' && t[..11] == "99999999999"
    ensures t != [] && IsDigit(t[0]) && DigitRun(t) == 11
    ensures DecimalValue(t[..DigitRun(t)]) > Int32Max
  {
    assert forall i :: 0 <= i < 11 ==> t[i] == '9';
    DigitRunExact(t, 11);
    ElevenDigitsFromNine(t[..11]);
  }

  /** Eleven digits beginning with `9` denote at least 9 * 10^10. */
  lemma ElevenDigitsFromNine(d: string)
    requires |d| == 11 && d[0] == '9' && forall i :: 0 <= i < |d| ==> IsDigit(d[i])
    ensures DecimalValue(d) > Int32Max
  {
    assert DecimalValue(d) == DigitValue('9') * Pow10(10) + DecimalValue(d[1..]);
    Pow10Nine();
    assert Pow10(10) == 10 * Pow10(9);
  }

  /**
   * `"$1/$99999999999$2"`: after group 1 and `/`, the digits after the second
   * `$` exceed Int32.MaxValue, so .NET rejects the whole replacement.
   */
  lemma ParseHugeGroupPath()
    ensures Parse("$1" + "/$99999999999" + "$2", 3) == None
  {
    var t := "99999999999$2";
    HugeGroupPathPieces(t);
    GroupOneThenElevenNines(t, "$1" + "/$99999999999" + "$2");
  }

  /** `$1/$` followed by eleven nines and then a `$`: the parse fails. */
  lemma GroupOneThenElevenNines(t: string, r: string)
    requires |t| >= 12 && t[11] == '$' && t[..11] == "99999999999"
    requires r == ['$', '1'] + "/" + ("$" + t)
    ensures Parse(r, 3) == None
  {
    ElevenNines(t);
    GroupThenOverflow('1', "/", t, 3, r);
  }

  lemma HugeGroupPathPieces(t: string)
    requires t == "99999999999$2"
    ensures ['$', '1'] + "/" + ("$" + t) == "$1" + "/$99999999999" + "$2"
    ensures |t| >= 12 && t[11] == '$' && t[..11] == "99999999999"
  {
  }

  /** A group, dollar-free text, then a group number above Int32.MaxValue: the parse fails. */
  lemma GroupThenOverflow(n: char, x: string, t: string, groups: nat, r: string)
    requires IsDigit(n) && DigitValue(n) < groups
    requires '$' !in x && (x == [] || !IsDigit(x[0]))
    requires t != [] && IsDigit(t[0]) && DecimalValue(t[..DigitRun(t)]) > Int32Max
    requires r == ['$', n] + x + ("$" + t)
    ensures Parse(r, groups) == None
  {
    ParseOverflowingGroup(t, groups);
    assert x + ("$" + t) != [] && !IsDigit((x + ("$" + t))[0]);
    GroupThenLiteralText(n, x, "$" + t, groups);
  }

  lemma Pow10Nine()
    ensures Pow10(9) == 1000000000
  {
    assert Pow10(1) == 10;
    assert Pow10(2) == 100;
    assert Pow10(3) == 1000;
    assert Pow10(4) == 10000;
    assert Pow10(5) == 100000;
    assert Pow10(6) == 1000000;
    assert Pow10(7) == 10000000;
    assert Pow10(8) == 100000000;
  }

  /** A run of `1` and then up to eight more digits is a number from 10 to below 2^31. */
  lemma DecimalValueAfterOne(d: string)
    requires 2 <= |d| <= 9 && d[0] == '1'
    requires forall i :: 0 <= i < |d| ==> IsDigit(d[i])
    ensures 10 <= DecimalValue(d) <= Int32Max
  {
    var k := |d| - 1;
    assert DecimalValue(d) == DigitValue('1') * Pow10(k) + DecimalValue(d[1..]);
    assert DigitValue('1') == 1;
    Pow10Monotone(1, k);
    assert Pow10(1) == 10;
    DecimalValueBound(d);
    Pow10Monotone(|d|, 9);
    Pow10Nine();
  }

  /** `1` followed by one to eight digits is read as a group number from 10 to below 2^31. */
  lemma GroupNumberAfterOne(x: string)
    requires x != [] && IsDigit(x[0]) && DigitRun(x) <= 8
    ensures var t := "1" + x; 10 <= DecimalValue(t[..DigitRun(t)]) <= Int32Max
  {
    OneThenDigits(x, "1" + x);
  }

  /** `GroupNumberAfterOne` for the digits `t` that follow the `$`. */
  lemma OneThenDigits(x: string, t: string)
    requires x != [] && IsDigit(x[0]) && DigitRun(x) <= 8
    requires t == ['1'] + x
    ensures 10 <= DecimalValue(t[..DigitRun(t)]) <= Int32Max
  {
    DigitRunCons('1', x);
    var d := t[..1 + DigitRun(x)];
    assert d[0] == '1';
    DecimalValueAfterOne(d);
  }
}
