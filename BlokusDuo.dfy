/** The two pieces of game logic the Blokus Duo front end decides without
    the console: which save file a typed choice names, and who has won once
    neither player can move. */
module BlokusDuo {

  // ---------------------------------------------------------------------
  // Number tokens: the patterns `1?[0-9]` and `\[1?[0-9]\]`
  // ---------------------------------------------------------------------

  /** An ASCII decimal digit, the only characters `[0-9]` accepts. */
  predicate IsDigit(c: char) {
    '0' <= c <= '9'
  }

  /** The string is made of digits only. */
  predicate AllDigits(s: string) {
    forall k :: 0 <= k < |s| ==> IsDigit(s[k])
  }

  /** The value of a digit. */
  function DigitValue(c: char): (d: nat)
    requires IsDigit(c)
    ensures d < 10
  {
    c as int - '0' as int
  }

  /** The digit of a value below ten. */
  function DigitOf(d: nat): (c: char)
    requires d < 10
    ensures IsDigit(c) && DigitValue(c) == d
  {
    ('0' as int + d) as char
  }

  /** The whole string matches `1?[0-9]`: one digit, or a `1` and a digit. */
  predicate IsSmallNumber(s: string) {
    || (|s| == 1 && IsDigit(s[0]))
    || (|s| == 2 && s[0] == '1' && IsDigit(s[1]))
  }

  /** The whole string matches `\[1?[0-9]\]`: a small number in brackets. */
  predicate IsBracketedNumber(s: string) {
    |s| >= 2 && s[0] == '[' && s[|s| - 1] == ']' && IsSmallNumber(s[1..|s| - 1])
  }

  /** The decimal value of a string of digits, most significant first, as
      an integer parser reads it. */
  function Decimal(s: string): (n: nat)
    requires AllDigits(s)
  {
    if |s| == 0 then 0 else Decimal(s[..|s| - 1]) * 10 + DigitValue(s[|s| - 1])
  }

  /** Every small number reads as a value from 0 to 19, and its value is
      what its digits spell. */
  lemma DecimalOfSmallNumber(s: string)
    requires IsSmallNumber(s)
    ensures AllDigits(s) && Decimal(s) < 20
    ensures |s| == 1 ==> Decimal(s) == DigitValue(s[0])
    ensures |s| == 2 ==> Decimal(s) == 10 + DigitValue(s[1])
  {
    if |s| == 2 {
      assert s[..1] == [s[0]];
      assert s[..1][..0] == [];
    } else {
      assert s[..0] == [];
    }
  }

  /** The text of a value below twenty with no leading zero: the token a
      player types for save slot n. */
  function SmallNumberText(n: nat): string
    requires n < 20
  {
    if n < 10 then [DigitOf(n)] else ['1', DigitOf(n - 10)]
  }

  /** Every value below twenty has a small-number token, and that token
      reads back as the value. */
  lemma SmallNumberRoundTrip(n: nat)
    requires n < 20
    ensures IsSmallNumber(SmallNumberText(n))
    ensures AllDigits(SmallNumberText(n)) && Decimal(SmallNumberText(n)) == n
  {
    DecimalOfSmallNumber(SmallNumberText(n));
  }

  /** Every small-number token is the text of its own value, so the token
      for a value is unique. */
  lemma SmallNumberTextOfDecimal(s: string)
    requires IsSmallNumber(s)
    ensures AllDigits(s) && Decimal(s) < 20 && SmallNumberText(Decimal(s)) == s
  {
    DecimalOfSmallNumber(s);
  }

  /** The position of the first occurrence of c in s, or -1 when c does
      not occur. */
  function IndexOf(s: string, c: char): (r: int)
    ensures -1 <= r < |s|
    ensures r == -1 <==> c !in s
    ensures r >= 0 ==> s[r] == c && c !in s[..r]
  {
    if |s| == 0 then -1
    else if s[0] == c then 0
    else
      var r := IndexOf(s[1..], c);
      assert s == [s[0]] + s[1..];
      if r == -1 then -1
      else
        assert s[..r + 1] == [s[0]] + s[1..][..r];
        r + 1
  }

  /** In a bracketed number the first `]` is the closing one, so the digits
      read are exactly those between the brackets. */
  lemma CloseBracketOfBracketedNumber(s: string)
    requires IsBracketedNumber(s)
    ensures IndexOf(s, ']') == |s| - 1
  {
    var inner := s[1..|s| - 1];
    forall k | 0 <= k < |s| - 1 ensures s[k] != ']' {
      if k > 0 {
        assert s[k] == inner[k - 1];
      }
    }
    assert ']' !in s[..|s| - 1];
  }

  // ---------------------------------------------------------------------
  // Case-insensitive names
  // ---------------------------------------------------------------------

  /** Upper case of an ASCII letter; every other character is kept. The
      result is no small letter, and only a small letter is moved. */
  function ToUpper(c: char): (u: char)
    ensures !('a' <= u <= 'z')
    ensures u != c ==> 'a' <= c <= 'z'
  {
    if 'a' <= c <= 'z' then (c as int - 32) as char else c
  }

  /** Lower case of an ASCII letter; every other character is kept. The
      result is no capital and equals c ignoring case. */
  function ToLower(c: char): (l: char)
    ensures !('A' <= l <= 'Z') && ToUpper(l) == ToUpper(c)
  {
    if 'A' <= c <= 'Z' then (c as int + 32) as char else c
  }

  /** Two characters are equal ignoring case: equal, equal in upper case,
      or equal once upper-cased and then lower-cased. */
  predicate CharsEqualIgnoreCase(a: char, b: char) {
    a == b || ToUpper(a) == ToUpper(b) || ToLower(ToUpper(a)) == ToLower(ToUpper(b))
  }

  /** Two strings are equal ignoring case: of the same length and equal
      ignoring case at every position. */
  predicate EqualsIgnoreCase(a: string, b: string) {
    |a| == |b| && forall k :: 0 <= k < |a| ==> CharsEqualIgnoreCase(a[k], b[k])
  }

  /** The string with every ASCII capital replaced by its small letter: it
      holds no capital and equals s ignoring case. */
  function Lowered(s: string): (r: string)
    ensures forall k :: 0 <= k < |r| ==> !('A' <= r[k] <= 'Z')
    ensures EqualsIgnoreCase(s, r)
  {
    seq(|s|, k requires 0 <= k < |s| => ToLower(s[k]))
  }

  /** Two characters are equal ignoring case exactly when their lower
      cases are equal. */
  lemma CharsEqualIgnoreCaseIffLower(a: char, b: char)
    ensures CharsEqualIgnoreCase(a, b) <==> ToLower(a) == ToLower(b)
  {
  }

  /** Two names are equal ignoring case exactly when their lower-cased
      forms are the same string. */
  lemma EqualsIgnoreCaseIffLowered(a: string, b: string)
    ensures EqualsIgnoreCase(a, b) <==> Lowered(a) == Lowered(b)
  {
    if EqualsIgnoreCase(a, b) {
      forall k | 0 <= k < |a| ensures Lowered(a)[k] == Lowered(b)[k] {
        CharsEqualIgnoreCaseIffLower(a[k], b[k]);
      }
    }
    if Lowered(a) == Lowered(b) {
      forall k | 0 <= k < |a| ensures CharsEqualIgnoreCase(a[k], b[k]) {
        assert Lowered(a)[k] == Lowered(b)[k];
        CharsEqualIgnoreCaseIffLower(a[k], b[k]);
      }
    }
  }

  /** Equality ignoring case is symmetric and transitive, and every name
      equals itself. */
  lemma EqualsIgnoreCaseIsEquivalence(a: string, b: string, c: string)
    ensures EqualsIgnoreCase(a, a)
    ensures EqualsIgnoreCase(a, b) ==> EqualsIgnoreCase(b, a)
    ensures EqualsIgnoreCase(a, b) && EqualsIgnoreCase(b, c) ==> EqualsIgnoreCase(a, c)
  {
    EqualsIgnoreCaseIffLowered(a, b);
    EqualsIgnoreCaseIffLowered(b, a);
    EqualsIgnoreCaseIffLowered(b, c);
    EqualsIgnoreCaseIffLowered(a, c);
  }

  // ---------------------------------------------------------------------
  // Finding a save
  // ---------------------------------------------------------------------

  /** The position of the first name equal to the given one ignoring case,
      or -1 when there is none. */
  function FirstMatch(name: string, names: seq<string>): (r: int)
    ensures -1 <= r < |names|
    ensures r == -1 <==> forall j :: 0 <= j < |names| ==> !EqualsIgnoreCase(name, names[j])
    ensures r >= 0 ==> EqualsIgnoreCase(name, names[r])
    ensures r >= 0 ==> forall j :: 0 <= j < r ==> !EqualsIgnoreCase(name, names[j])
  {
    if |names| == 0 then -1
    else
      var r := FirstMatch(name, names[..|names| - 1]);
      assert forall j :: 0 <= j < |names| - 1 ==> names[..|names| - 1][j] == names[j];
      if r >= 0 then r
      else if EqualsIgnoreCase(name, names[|names| - 1]) then |names| - 1
      else -1
  }

  /** A slot number counted from one, as a position counted from zero, or
      -1 when the list has no such position. */
  function Slot(number: nat, count: nat): (r: int)
    ensures r == -1 || 0 <= r < count
    ensures 1 <= number <= count ==> r == number - 1
    ensures number == 0 || number > count ==> r == -1
  {
    var idx := number - 1;
    if idx >= count then -1 else idx
  }

  /** Which save a choice names: a small number in brackets or a bare small
      number is a slot counted from one; anything else is a file name,
      found ignoring case. The answer is -1 when no save is named. */
  function SaveIndex(saveName: string, saveNames: seq<string>): (r: int)
    ensures -1 <= r < |saveNames|
  {
    if IsBracketedNumber(saveName) then
      CloseBracketOfBracketedNumber(saveName);
      DecimalOfSmallNumber(saveName[1..IndexOf(saveName, ']')]);
      Slot(Decimal(saveName[1..IndexOf(saveName, ']')]), |saveNames|)
    else if IsSmallNumber(saveName) then
      DecimalOfSmallNumber(saveName);
      Slot(Decimal(saveName), |saveNames|)
    else
      FirstMatch(saveName, saveNames)
  }

  /** Finds the save a choice names, as SaveIndex says: the slot a number
      picks, or the first name equal to the choice ignoring case. */
  method FindSaveIndex(saveName: string, saveNames: seq<string>) returns (idx: int)
    ensures -1 <= idx < |saveNames|
    ensures idx == SaveIndex(saveName, saveNames)
  {
    idx := -1;
    if IsBracketedNumber(saveName) {
      CloseBracketOfBracketedNumber(saveName);
      var digits := saveName[1..IndexOf(saveName, ']')];
      DecimalOfSmallNumber(digits);
      idx := Decimal(digits) - 1;
      if idx >= |saveNames| {
        idx := -1;
      }
    } else if IsSmallNumber(saveName) {
      DecimalOfSmallNumber(saveName);
      idx := Decimal(saveName) - 1;
      if idx >= |saveNames| {
        idx := -1;
      }
    } else {
      var i := 0;
      while i < |saveNames| && idx == -1
        invariant 0 <= i <= |saveNames|
        invariant idx == -1 ==> forall j :: 0 <= j < i ==> !EqualsIgnoreCase(saveName, saveNames[j])
        invariant idx != -1 ==> 0 <= idx < i && EqualsIgnoreCase(saveName, saveNames[idx])
        invariant idx != -1 ==> forall j :: 0 <= j < idx ==> !EqualsIgnoreCase(saveName, saveNames[j])
      {
        if EqualsIgnoreCase(saveName, saveNames[i]) {
          idx := i;
        }
        i := i + 1;
      }
    }
  }

  /** A slot number in brackets picks the slot counted from one, when the
      list is that long, and nothing otherwise. */
  lemma BracketedSlot(n: nat, saveNames: seq<string>)
    requires n < 20
    ensures IsBracketedNumber("[" + SmallNumberText(n) + "]")
    ensures SaveIndex("[" + SmallNumberText(n) + "]", saveNames) == if 1 <= n <= |saveNames| then n - 1 else -1
  {
    var s := "[" + SmallNumberText(n) + "]";
    SmallNumberRoundTrip(n);
    assert s[1..|s| - 1] == SmallNumberText(n);
    CloseBracketOfBracketedNumber(s);
  }

  /** A bare slot number picks the slot counted from one, when the list is
      that long, and nothing otherwise. */
  lemma BareSlot(n: nat, saveNames: seq<string>)
    requires n < 20
    ensures !IsBracketedNumber(SmallNumberText(n)) && IsSmallNumber(SmallNumberText(n))
    ensures SaveIndex(SmallNumberText(n), saveNames) == if 1 <= n <= |saveNames| then n - 1 else -1
  {
    SmallNumberRoundTrip(n);
  }

  /** A number names the same save with or without brackets. */
  lemma BracketsDoNotMatter(s: string, saveNames: seq<string>)
    requires IsSmallNumber(s)
    ensures SaveIndex("[" + s + "]", saveNames) == SaveIndex(s, saveNames)
  {
    SmallNumberTextOfDecimal(s);
    BracketedSlot(Decimal(s), saveNames);
    BareSlot(Decimal(s), saveNames);
  }

  /** Slot zero names no save, in either form. */
  lemma SlotZeroIsNone(saveNames: seq<string>)
    ensures SaveIndex("0", saveNames) == -1
    ensures SaveIndex("[0]", saveNames) == -1
  {
    BareSlot(0, saveNames);
    BracketedSlot(0, saveNames);
    assert SmallNumberText(0) == "0";
  }

  /** A choice that is not a number names a save exactly when some save has
      that name ignoring case, and then it names the first such save. */
  lemma NameFindsFirstMatch(saveName: string, saveNames: seq<string>)
    requires !IsBracketedNumber(saveName) && !IsSmallNumber(saveName)
    ensures SaveIndex(saveName, saveNames) >= 0 <==> exists j :: 0 <= j < |saveNames| && EqualsIgnoreCase(saveName, saveNames[j])
    ensures SaveIndex(saveName, saveNames) >= 0 ==> EqualsIgnoreCase(saveName, saveNames[SaveIndex(saveName, saveNames)])
    ensures forall j :: 0 <= j < |saveNames| && EqualsIgnoreCase(saveName, saveNames[j]) ==> SaveIndex(saveName, saveNames) <= j
  {
  }

  // ---------------------------------------------------------------------
  // End of the game
  // ---------------------------------------------------------------------

  datatype Player = One | Two

  /** The state of the game after a round: still going, tied on the given
      score, or won by a player. */
  datatype Outcome = Playing | Tie(score: int) | Win(winner: Player)

  /** The outcome announced when neither player can move; equal scores tie,
      and otherwise the higher score wins. */
  function GameOutcome(p1CanMove: bool, p2CanMove: bool, p1Score: int, p2Score: int): (r: Outcome)
    ensures r.Playing? <==> p1CanMove || p2CanMove
    ensures r.Tie? <==> !p1CanMove && !p2CanMove && p1Score == p2Score
    ensures r.Tie? ==> r.score == p1Score == p2Score
    ensures r == Win(One) <==> !p1CanMove && !p2CanMove && p1Score > p2Score
    ensures r == Win(Two) <==> !p1CanMove && !p2CanMove && p1Score < p2Score
  {
    if !p1CanMove && !p2CanMove then
      if p1Score == p2Score then Tie(p1Score)
      else Win(if p1Score > p2Score then One else Two)
    else Playing
  }

  /** The score of a player. */
  function ScoreOf(who: Player, p1Score: int, p2Score: int): int {
    if who == One then p1Score else p2Score
  }

  /** The other player. */
  function Opponent(who: Player): Player {
    if who == One then Two else One
  }

  /** A winner always has strictly more points than the loser. */
  lemma WinnerScoresMore(p1CanMove: bool, p2CanMove: bool, p1Score: int, p2Score: int)
    ensures GameOutcome(p1CanMove, p2CanMove, p1Score, p2Score).Win? ==>
      var w := GameOutcome(p1CanMove, p2CanMove, p1Score, p2Score).winner;
      ScoreOf(w, p1Score, p2Score) > ScoreOf(Opponent(w), p1Score, p2Score)
  {
  }

  /** Swapping the players swaps the winner and keeps a tie or an unfinished
      game as it is. */
  lemma OutcomeIsSymmetric(p1CanMove: bool, p2CanMove: bool, p1Score: int, p2Score: int)
    ensures var r := GameOutcome(p1CanMove, p2CanMove, p1Score, p2Score);
      var s := GameOutcome(p2CanMove, p1CanMove, p2Score, p1Score);
      (r.Win? <==> s.Win?) && (r.Win? ==> s.winner == Opponent(r.winner)) &&
      (!r.Win? ==> r == s)
  {
  }
}
