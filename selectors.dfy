/**
 * The text side of section addressing in the UCI configuration tree
 * (types.go): the base-10 conversions the selectors rely on, the parser of
 * positional selectors "@type[index]" and the placeholder-name helpers.
 * Strings are sequences of ASCII characters.
 */
module Selectors {
  import opened Wrappers

  // ---------------------------------------------------------------------
  // Decimal numbers (the parts of strconv.Atoi and strconv.Itoa used here)
  // ---------------------------------------------------------------------

  predicate IsDigit(c: char) {
    '0' <= c <= '9'
  }

  predicate AllDigits(s: string) {
    forall i :: 0 <= i < |s| ==> IsDigit(s[i])
  }

  function DigitValue(c: char): nat
    requires IsDigit(c)
  {
    c as int - '0' as int
  }

  /** The value of a string of decimal digits, most significant digit first. */
  function DigitsValue(s: string): nat
    requires AllDigits(s)
  {
    if s == [] then 0 else DigitsValue(s[..|s| - 1]) * 10 + DigitValue(s[|s| - 1])
  }

  /**
   * strconv.Atoi: an optional sign followed by one or more decimal digits.
   * The error carries the text that failed to parse.
   */
  function Atoi(s: string): Result<int, string> {
    var signed := |s| > 0 && (s[0] == '-' || s[0] == '+');
    var digits := if signed then s[1..] else s;
    if digits != [] && AllDigits(digits) then
      Ok(if signed && s[0] == '-' then -(DigitsValue(digits) as int) else DigitsValue(digits))
    else
      Err(s)
  }

  /** The shortest decimal spelling of n. */
  function NatToDigits(n: nat): (s: string)
    ensures |s| >= 1 && AllDigits(s) && DigitsValue(s) == n
  {
    var last := [('0' as int + n % 10) as char];
    if n < 10 then last
    else
      var s := NatToDigits(n / 10) + last;
      assert s[..|s| - 1] == NatToDigits(n / 10);
      s
  }

  /** strconv.Itoa. */
  function Itoa(n: int): string {
    if n < 0 then "-" + NatToDigits(-n) else NatToDigits(n)
  }

  lemma AtoiItoa(n: int)
    ensures Atoi(Itoa(n)) == Ok(n)
  {
    var s := Itoa(n);
    if n < 0 {
      assert s[0] == '-' && s[1..] == NatToDigits(-n);
    } else {
      assert IsDigit(s[0]);
    }
  }

  lemma ItoaChars(n: int)
    ensures forall c :: c in Itoa(n) ==> IsDigit(c) || c == '-'
  {
    var d := NatToDigits(if n < 0 then -n else n);
    assert forall c :: c in d ==> IsDigit(c);
  }

  // ---------------------------------------------------------------------
  // Positional selectors "@type[index]" (unmangleSectionName)
  // ---------------------------------------------------------------------

  /** The static error values of types.go:82-87 and the wrapped Atoi failure of line 126. */
  datatype SelectorError =
    | ImplausibleSelector
    | MustStartWithAt
    | MultipleAtSigns
    | MultipleOpenBrackets
    | MultipleCloseBrackets
    | InvalidSelectorFormat
    | IndexNotNumeric(text: string)

  /** A parsed selector: the section type and the (possibly negative) index. */
  datatype Selector = Selector(typ: string, index: int)

  /**
   * The left-to-right scan: position i is next, bra is the position of the
   * open bracket seen so far (0 when none). Returns the final bra.
   */
  function ScanBrackets(name: string, i: nat, bra: nat): Result<nat, SelectorError>
    requires i <= |name|
    decreases |name| - i
  {
    if i == |name| then Ok(bra)
    else if i != 0 && name[i] == '@' then Err(MultipleAtSigns)
    else if name[i] == '[' && bra > 0 then Err(MultipleOpenBrackets)
    else if name[i] == ']' && i != |name| - 1 then Err(MultipleCloseBrackets)
    else ScanBrackets(name, i + 1, if name[i] == '[' then i else bra)
  }

  /**
   * unmangleSectionName. With closeChecked false this is the function as
   * written, which never looks at the last character; with closeChecked true
   * the last character must be the closing bracket.
   */
  function SplitSelector(name: string, closeChecked: bool): Result<Selector, SelectorError> {
    if |name| < 5 then Err(ImplausibleSelector)
    else if name[0] != '@' then Err(MustStartWithAt)
    else
      match ScanBrackets(name, 0, 0)
      case Err(e) => Err(e)
      case Ok(bra) =>
        var ket := |name| - 1;
        if bra == 0 || bra >= ket || (closeChecked && name[ket] != ']') then
          Err(InvalidSelectorFormat)
        else
          match Atoi(name[bra + 1..ket])
          case Err(text) => Err(IndexNotNumeric(text))
          case Ok(index) => Ok(Selector(name[1..bra], index))
  }

  /** unmangleSectionName exactly as written. */
  function UnmangleAsWritten(name: string): Result<Selector, SelectorError> {
    SplitSelector(name, false)
  }

  /** unmangleSectionName with the closing bracket checked, as its error message intends. */
  function Unmangle(name: string): Result<Selector, SelectorError> {
    SplitSelector(name, true)
  }

  /** Position i (after the leading '@') is where the scan stops with an error. */
  predicate Offence(name: string, i: nat)
    requires 1 <= i < |name|
  {
    name[i] == '@' || (name[i] == '[' && '[' in name[1..i]) || (name[i] == ']' && i != |name| - 1)
  }

  predicate NoOffenceIn(name: string, lo: nat, hi: nat)
    requires 1 <= lo <= hi <= |name|
  {
    forall j :: lo <= j < hi ==> !Offence(name, j)
  }

  /** The error reported for an offending character. */
  function OffenceError(c: char): SelectorError {
    if c == '@' then MultipleAtSigns
    else if c == '[' then MultipleOpenBrackets
    else MultipleCloseBrackets
  }

  lemma {:induction false} ScanFrom(name: string, i: nat, bra: nat)
    requires 1 <= i <= |name|
    requires NoOffenceIn(name, 1, i)
    requires bra == 0 ==> '[' !in name[1..i]
    requires bra != 0 ==> 1 <= bra < i && name[bra] == '['
    ensures ScanBrackets(name, i, bra).Ok? <==> NoOffenceIn(name, i, |name|)
    ensures ScanBrackets(name, i, bra).Ok? ==>
              var b := ScanBrackets(name, i, bra).value;
              (b == 0 ==> '[' !in name[1..]) && (b != 0 ==> 1 <= b < |name| && name[b] == '[')
    ensures forall j :: i <= j < |name| && Offence(name, j) && NoOffenceIn(name, i, j) ==>
              ScanBrackets(name, i, bra) == Err(OffenceError(name[j]))
    decreases |name| - i
  {
    if i == |name| {
      assert name[1..] == name[1..i];
    } else if Offence(name, i) {
      if name[i] == '[' && '[' in name[1..i] {
        assert bra > 0;
      }
    } else {
      var bra' := if name[i] == '[' then i else bra;
      assert name[1..i + 1] == name[1..i] + [name[i]];
      ScanFrom(name, i + 1, bra');
    }
  }

  /** A second '[' after the leading '@' is an offence. */
  lemma SecondOpenOffends(name: string)
    ensures forall b1, b2 :: 1 <= b1 < b2 < |name| && name[b1] == '[' && name[b2] == '[' ==> Offence(name, b2)
  {
    forall b1, b2 | 1 <= b1 < b2 < |name| && name[b1] == '[' && name[b2] == '['
      ensures Offence(name, b2)
    {
      assert name[1..b2][b1 - 1] == '[';
    }
  }

  /**
   * The outcome of unmangleSectionName in the order of its checks: length,
   * leading '@', the first offending character of the scan, the bracket
   * position, the index text.
   */
  lemma SelectorErrorOrder(name: string, closeChecked: bool)
    ensures |name| < 5 ==> SplitSelector(name, closeChecked) == Err(ImplausibleSelector)
    ensures |name| >= 5 && name[0] != '@' ==> SplitSelector(name, closeChecked) == Err(MustStartWithAt)
    ensures |name| >= 5 && name[0] == '@' ==>
              forall j :: 1 <= j < |name| && Offence(name, j) && NoOffenceIn(name, 1, j) ==>
                SplitSelector(name, closeChecked) == Err(OffenceError(name[j]))
    ensures |name| >= 5 && name[0] == '@' && NoOffenceIn(name, 1, |name|) &&
            ('[' !in name[1..] || name[|name| - 1] == '[') ==>
              SplitSelector(name, closeChecked) == Err(InvalidSelectorFormat)
    ensures |name| >= 5 && name[0] == '@' && NoOffenceIn(name, 1, |name|) ==>
              forall b :: 1 <= b < |name| - 1 && name[b] == '[' ==>
                SplitSelector(name, closeChecked) ==
                  if closeChecked && name[|name| - 1] != ']' then Err(InvalidSelectorFormat)
                  else match Atoi(name[b + 1..|name| - 1])
                    case Err(text) => Err(IndexNotNumeric(text))
                    case Ok(index) => Ok(Selector(name[1..b], index))
  {
    if |name| >= 5 && name[0] == '@' {
      assert ScanBrackets(name, 0, 0) == ScanBrackets(name, 1, 0);
      ScanFrom(name, 1, 0);
      if NoOffenceIn(name, 1, |name|) {
        var bra := ScanBrackets(name, 1, 0).value;
        SecondOpenOffends(name);
        forall b | 1 <= b < |name| - 1 && name[b] == '['
          ensures bra == b
        {
          assert name[1..][b - 1] == '[';
        }
      }
    }
  }

  /** On success the scan found exactly one '[', after the type, and the last character is ']'. */
  lemma UnmangleOkScan(name: string)
    requires Unmangle(name).Ok?
    ensures var sel := Unmangle(name).value;
            var bra := |sel.typ| + 1;
            bra < |name| - 1 && name[0] == '@' && name[bra] == '[' && name[|name| - 1] == ']' &&
            NoOffenceIn(name, 1, |name|) && sel.typ == name[1..bra] &&
            Atoi(name[bra + 1..|name| - 1]) == Ok(sel.index)
  {
    assert ScanBrackets(name, 0, 0) == ScanBrackets(name, 1, 0);
    ScanFrom(name, 1, 0);
  }

  /** Before the only '[' of a scan without offences there is no '@', '[' or ']'. */
  lemma TypeCharsOfScan(name: string, bra: nat)
    requires 1 <= bra < |name| - 1 && name[bra] == '[' && NoOffenceIn(name, 1, |name|)
    ensures forall c :: c in name[1..bra] ==> c != '@' && c != '[' && c != ']'
  {
    SecondOpenOffends(name);
    assert !Offence(name, bra);
    forall k | 1 <= k < bra
      ensures name[k] != '@' && name[k] != '[' && name[k] != ']'
    {
      assert !Offence(name, k);
    }
    forall c | c in name[1..bra]
      ensures c != '@' && c != '[' && c != ']'
    {
      var k :| 0 <= k < bra - 1 && name[1..bra][k] == c;
      assert name[k + 1] == c;
    }
  }

  /** On success the selector is "@" + type + "[" + index text + "]" and the type has no '@', '[' or ']'. */
  lemma UnmangleShape(name: string)
    requires Unmangle(name).Ok?
    ensures var sel := Unmangle(name).value;
            var text := name[|sel.typ| + 2..|name| - 1];
            name == "@" + sel.typ + "[" + text + "]" && Atoi(text) == Ok(sel.index) &&
            forall c :: c in sel.typ ==> c != '@' && c != '[' && c != ']'
  {
    UnmangleOkScan(name);
    ShapeOfParts(name, Unmangle(name).value);
  }

  lemma ShapeOfParts(name: string, sel: Selector)
    requires var bra := |sel.typ| + 1;
             bra < |name| - 1 && name[0] == '@' && name[bra] == '[' && name[|name| - 1] == ']' &&
             NoOffenceIn(name, 1, |name|) && sel.typ == name[1..bra] &&
             Atoi(name[bra + 1..|name| - 1]) == Ok(sel.index)
    ensures var text := name[|sel.typ| + 2..|name| - 1];
            name == "@" + sel.typ + "[" + text + "]" && Atoi(text) == Ok(sel.index) &&
            forall c :: c in sel.typ ==> c != '@' && c != '[' && c != ']'
  {
    var bra := |sel.typ| + 1;
    TypeCharsOfScan(name, bra);
    assert name == "@" + name[1..bra] + "[" + name[bra + 1..|name| - 1] + "]";
  }

  /**
   * A selector built from a type free of '@', '[' and ']' and any index text
   * free of them parses to that type and whatever Atoi makes of the text.
   */
  lemma UnmangleWellFormed(t: string, text: string)
    requires t != [] && |t| + |text| >= 2
    requires forall c :: c in t ==> c != '@' && c != '[' && c != ']'
    requires forall c :: c in text ==> c != '@' && c != '[' && c != ']'
    ensures Unmangle("@" + t + "[" + text + "]") ==
              match Atoi(text)
              case Err(e) => Err(IndexNotNumeric(e))
              case Ok(index) => Ok(Selector(t, index))
  {
    var name := "@" + t + "[" + text + "]";
    var b := |t| + 1;
    assert name[b] == '[' && name[1..b] == t && name[b + 1..|name| - 1] == text;
    assert name[0] == '@' && name[|name| - 1] == ']';
    forall j | 1 <= j < |name| - 1
      ensures (name[j] == '[') == (j == b) && name[j] != '@' && name[j] != ']'
    {
      if j < b {
        assert name[j] == t[j - 1] && t[j - 1] in t;
      } else if j > b {
        assert name[j] == text[j - b - 1] && text[j - b - 1] in text;
      }
    }
    forall j | 1 <= j < |name|
      ensures !Offence(name, j)
    {
      if j < b {
        assert name[1..j] == t[..j - 1];
      } else if j > b {
        assert name[1..j][b - 1] == '[';
      }
    }
    SelectorErrorOrder(name, true);
  }

  /** The selector form is unambiguous for types free of '@', '[' and ']'. */
  lemma UnmangleNum2Placeholder(t: string, n: int)
    requires t != []
    requires forall c :: c in t ==> c != '@' && c != '[' && c != ']'
    ensures Unmangle(Num2PlaceholderSection(t, n)) == Ok(Selector(t, n))
  {
    ItoaChars(n);
    AtoiItoa(n);
    UnmangleWellFormed(t, Itoa(n));
  }

  /** The same round trip through unmangleSectionName as written, since a synthetic name ends in ']'. */
  lemma UnmangleAsWrittenNum2Placeholder(t: string, n: int)
    requires t != []
    requires forall c :: c in t ==> c != '@' && c != '[' && c != ']'
    ensures UnmangleAsWritten(Num2PlaceholderSection(t, n)) == Ok(Selector(t, n))
  {
    var name := Num2PlaceholderSection(t, n);
    UnmangleNum2Placeholder(t, n);
    assert name[|name| - 1] == ']';
    UnmangleAgreesWhenClosed(name);
  }

  /** The rejected selectors of types_test.go:16-23 and 32, as unmangleSectionName is written. */
  lemma UnmangleErrorTable()
    ensures UnmangleAsWritten("") == Err(ImplausibleSelector)
    ensures UnmangleAsWritten("aa[0]") == Err(MustStartWithAt)
    ensures UnmangleAsWritten("@@[0]") == Err(MultipleAtSigns)
    ensures UnmangleAsWritten("@@@@@@@@@@@") == Err(MultipleAtSigns)
    ensures UnmangleAsWritten("@[[0]") == Err(MultipleOpenBrackets)
    ensures UnmangleAsWritten("@][0]") == Err(MultipleCloseBrackets)
    ensures UnmangleAsWritten("@aa0]") == Err(InvalidSelectorFormat)
    ensures UnmangleAsWritten("@a[b]") == Err(IndexNotNumeric("b"))
    ensures UnmangleAsWritten("@abcdEFGHijkl[0xff]") == Err(IndexNotNumeric("0xff"))
  {
    RejectsAtAfterAt();
    RejectsAllAt();
    RejectsOpenAfterOpen();
    RejectsEarlyClose();
    RejectsMissingOpen();
    RejectsLetterIndex();
    RejectsHexIndex();
  }

  lemma RejectsAtAfterAt()
    ensures UnmangleAsWritten("@@[0]") == Err(MultipleAtSigns)
    ensures Unmangle("@@[0]") == Err(MultipleAtSigns)
  {
    SelectorErrorOrder("@@[0]", true);
    assert Offence("@@[0]", 1);
    UnmangleAgreesWhenClosed("@@[0]");
  }

  lemma RejectsAllAt()
    ensures UnmangleAsWritten("@@@@@@@@@@@") == Err(MultipleAtSigns)
    ensures Unmangle("@@@@@@@@@@@") == Err(MultipleAtSigns)
  {
    SelectorErrorOrder("@@@@@@@@@@@", true);
    assert Offence("@@@@@@@@@@@", 1);
    SelectorErrorOrder("@@@@@@@@@@@", false);
  }

  lemma RejectsOpenAfterOpen()
    ensures UnmangleAsWritten("@[[0]") == Err(MultipleOpenBrackets)
    ensures Unmangle("@[[0]") == Err(MultipleOpenBrackets)
  {
    SelectorErrorOrder("@[[0]", true);
    assert !Offence("@[[0]", 1) && Offence("@[[0]", 2);
    UnmangleAgreesWhenClosed("@[[0]");
  }

  lemma RejectsEarlyClose()
    ensures UnmangleAsWritten("@][0]") == Err(MultipleCloseBrackets)
    ensures Unmangle("@][0]") == Err(MultipleCloseBrackets)
  {
    SelectorErrorOrder("@][0]", true);
    assert Offence("@][0]", 1);
    UnmangleAgreesWhenClosed("@][0]");
  }

  lemma RejectsMissingOpen()
    ensures UnmangleAsWritten("@aa0]") == Err(InvalidSelectorFormat)
    ensures Unmangle("@aa0]") == Err(InvalidSelectorFormat)
  {
    var name := "@aa0]";
    SelectorErrorOrder(name, true);
    assert !Offence(name, 1) && !Offence(name, 2) && !Offence(name, 3) && !Offence(name, 4);
    assert '[' !in name[1..];
    UnmangleAgreesWhenClosed("@aa0]");
  }

  lemma RejectsLetterIndex()
    ensures UnmangleAsWritten("@a[b]") == Err(IndexNotNumeric("b"))
    ensures Unmangle("@a[b]") == Err(IndexNotNumeric("b"))
  {
    assert "@a[b]" == "@" + "a" + "[" + "b" + "]";
    UnmangleWellFormed("a", "b");
    UnmangleAgreesWhenClosed("@a[b]");
  }

  lemma RejectsHexIndex()
    ensures UnmangleAsWritten("@abcdEFGHijkl[0xff]") == Err(IndexNotNumeric("0xff"))
    ensures Unmangle("@abcdEFGHijkl[0xff]") == Err(IndexNotNumeric("0xff"))
  {
    assert "@abcdEFGHijkl[0xff]" == "@" + "abcdEFGHijkl" + "[" + "0xff" + "]";
    UnmangleWellFormed("abcdEFGHijkl", "0xff");
    UnmangleAgreesWhenClosed("@abcdEFGHijkl[0xff]");
  }

  /** The accepted selectors of types_test.go:26-31, as unmangleSectionName is written. */
  lemma UnmangleValidTable()
    ensures UnmangleAsWritten("@a[0]") == Ok(Selector("a", 0))
    ensures UnmangleAsWritten("@a[4223]") == Ok(Selector("a", 4223))
    ensures UnmangleAsWritten("@a[-1]") == Ok(Selector("a", -1))
    ensures UnmangleAsWritten("@abcdEFGHijkl[-255]") == Ok(Selector("abcdEFGHijkl", -255))
  {
    AcceptsZero();
    AcceptsLargeIndex();
    AcceptsMinusOne();
    AcceptsLongType();
  }

  lemma AcceptsZero()
    ensures UnmangleAsWritten("@a[0]") == Ok(Selector("a", 0))
    ensures Unmangle("@a[0]") == Ok(Selector("a", 0))
  {
    assert "@a[0]" == "@" + "a" + "[" + "0" + "]";
    assert "0"[..0] == "";
    UnmangleWellFormed("a", "0");
    UnmangleAgreesWhenClosed("@a[0]");
  }

  lemma AcceptsLargeIndex()
    ensures UnmangleAsWritten("@a[4223]") == Ok(Selector("a", 4223))
    ensures Unmangle("@a[4223]") == Ok(Selector("a", 4223))
  {
    assert "@a[4223]" == "@" + "a" + "[" + "4223" + "]";
    assert "4223"[..3] == "422" && "422"[..2] == "42" && "42"[..1] == "4" && "4"[..0] == "";
    UnmangleWellFormed("a", "4223");
    UnmangleAgreesWhenClosed("@a[4223]");
  }

  lemma AcceptsMinusOne()
    ensures UnmangleAsWritten("@a[-1]") == Ok(Selector("a", -1))
    ensures Unmangle("@a[-1]") == Ok(Selector("a", -1))
  {
    assert "@a[-1]" == "@" + "a" + "[" + "-1" + "]";
    assert "-1"[1..] == "1" && "1"[..0] == "";
    UnmangleWellFormed("a", "-1");
    UnmangleAgreesWhenClosed("@a[-1]");
  }

  lemma AcceptsLongType()
    ensures UnmangleAsWritten("@abcdEFGHijkl[-255]") == Ok(Selector("abcdEFGHijkl", -255))
    ensures Unmangle("@abcdEFGHijkl[-255]") == Ok(Selector("abcdEFGHijkl", -255))
  {
    assert "@abcdEFGHijkl[-255]" == "@" + "abcdEFGHijkl" + "[" + "-255" + "]";
    assert "-255"[1..] == "255";
    assert "255"[..2] == "25" && "25"[..1] == "2" && "2"[..0] == "";
    assert Atoi("-255") == Ok(-255);
    UnmangleWellFormed("abcdEFGHijkl", "-255");
    UnmangleAgreesWhenClosed("@abcdEFGHijkl[-255]");
  }

  /** An empty type is accepted once the selector is five characters long. */
  lemma UnmangleEmptyType()
    ensures UnmangleAsWritten("@[10]") == Ok(Selector("", 10))
    ensures Unmangle("@[10]") == Ok(Selector("", 10))
  {
    UnmangleAgreesWhenClosed("@[10]");
    var name := "@[10]";
    SelectorErrorOrder(name, true);
    forall j | 1 <= j < |name|
      ensures !Offence(name, j)
    {
    }
    assert name[1] == '[' && name[2..4] == "10" && name[1..1] == "";
    assert "10"[..1] == "1" && "1"[..0] == "";
    assert Atoi("10") == Ok(10);
  }

  /**
   * As written, the character in the closing-bracket position is never
   * checked, so a selector missing its ']' loses its last index digit.
   */
  lemma TrailingCharIgnored()
    ensures UnmangleAsWritten("@a[12") == Ok(Selector("a", 1))
    ensures Unmangle("@a[12") == Err(InvalidSelectorFormat)
  {
    var name := "@a[12";
    SelectorErrorOrder(name, false);
    SelectorErrorOrder(name, true);
    forall j | 1 <= j < |name|
      ensures !Offence(name, j)
    {
    }
    assert name[2] == '[' && name[3..4] == "1" && name[1..2] == "a";
    assert "1"[..0] == "";
    assert Atoi("1") == Ok(1);
  }

  /** Both readings agree on every selector that ends in ']'. */
  lemma UnmangleAgreesWhenClosed(name: string)
    requires |name| > 0 && name[|name| - 1] == ']'
    ensures Unmangle(name) == UnmangleAsWritten(name)
  {
  }

  // ---------------------------------------------------------------------
  // Placeholder names (Num2PlaceholderSection and friends)
  // ---------------------------------------------------------------------

  /** The synthetic name "@type[num]" of an unnamed section. */
  function Num2PlaceholderSection(sectionType: string, num: int): string {
    "@" + sectionType + "[" + Itoa(num) + "]"
  }

  /**
   * IsPlaceholderName: name is "@" + secType + "[" + one or more digits + "]".
   * The type is matched literally.
   */
  predicate IsPlaceholderName(name: string, secType: string) {
    |name| >= |secType| + 4 &&
    name[..|secType| + 2] == "@" + secType + "[" &&
    name[|name| - 1] == ']' &&
    AllDigits(name[|secType| + 2..|name| - 1])
  }

  /** The number of decimal digits at the end of s. */
  function TrailingDigits(s: string): (n: nat)
    ensures n <= |s|
    ensures forall i :: |s| - n <= i < |s| ==> IsDigit(s[i])
    ensures n < |s| ==> !IsDigit(s[|s| - n - 1])
  {
    if s == [] || !IsDigit(s[|s| - 1]) then 0
    else TrailingDigits(s[..|s| - 1]) + 1
  }

  datatype PlaceholderError = MalformedPlaceholder

  /**
   * PlaceholderSection2Num: matches "@" + any text without a line break +
   * "[" + digits + "]" and returns the digits' value.
   */
  function PlaceholderSection2Num(section: string): Result<nat, PlaceholderError> {
    if |section| < 4 || section[0] != '@' || section[|section| - 1] != ']' then Err(MalformedPlaceholder)
    else
      var body := section[..|section| - 1];
      var d := TrailingDigits(body);
      if d == 0 || |body| - d - 1 < 1 || body[|body| - d - 1] != '[' ||
         '\n' in section[1..|body| - d - 1] then
        Err(MalformedPlaceholder)
      else
        Ok(DigitsValue(body[|body| - d..]))
  }

  /** A synthetic name is recognised as a placeholder of its type exactly when its index is not negative. */
  lemma PlaceholderNameOfNum(t: string, n: int)
    ensures IsPlaceholderName(Num2PlaceholderSection(t, n), t) <==> n >= 0
  {
    var name := Num2PlaceholderSection(t, n);
    assert name[..|t| + 2] == "@" + t + "[";
    assert name[|t| + 2..|name| - 1] == Itoa(n);
    if n < 0 {
      assert Itoa(n)[0] == '-';
    }
  }

  /** PlaceholderSection2Num inverts Num2PlaceholderSection for non-negative indices and rejects negative ones. */
  lemma PlaceholderRoundTrip(t: string, n: int)
    requires '\n' !in t
    ensures n >= 0 ==> PlaceholderSection2Num(Num2PlaceholderSection(t, n)) == Ok(n)
    ensures n < 0 ==> PlaceholderSection2Num(Num2PlaceholderSection(t, n)).Err?
  {
    var name := Num2PlaceholderSection(t, n);
    var body := name[..|name| - 1];
    var digits := NatToDigits(if n < 0 then -n else n);
    assert body == "@" + t + "[" + Itoa(n);
    var d := TrailingDigits(body);
    // the trailing digit run is exactly the digits of |n|
    assert body[|body| - |digits|..] == digits;
    assert !IsDigit(body[|body| - |digits| - 1]);
    assert d == |digits|;
    if n >= 0 {
      assert body[|body| - d - 1] == '[';
      assert name[1..|body| - d - 1] == t;
    } else {
      assert body[|body| - d - 1] == '-';
    }
  }

  /** The index a placeholder name carries is what Unmangle reads from it. */
  lemma PlaceholderIndex(name: string, t: string)
    requires IsPlaceholderName(name, t)
    requires t != []
    requires forall c :: c in t ==> c != '@' && c != '[' && c != ']'
    ensures Unmangle(name) == Ok(Selector(t, DigitsValue(name[|t| + 2..|name| - 1])))
  {
    var text := name[|t| + 2..|name| - 1];
    assert name == "@" + t + "[" + text + "]";
    forall c | c in text
      ensures IsDigit(c)
    {
    }
    assert text != [] && IsDigit(text[0]);
    UnmangleWellFormed(t, text);
  }
}
