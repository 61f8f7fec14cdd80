/**
 * Display labels of books, halls and readers, with the decimal rendering of
 * integers they use, and parsers that recover the fields from a label.
 */
module Labels {
  import opened Wrappers
  import opened Records

  predicate IsDigit(c: char)
  {
    '0' <= c <= '9'
  }

  predicate AllDigits(s: string)
  {
    forall i :: 0 <= i < |s| ==> IsDigit(s[i])
  }

  function DigitChar(d: nat): (c: char)
    requires d < 10
    ensures IsDigit(c)
  {
    (('0' as int) + d) as char
  }

  function DigitValue(c: char): (d: nat)
    requires IsDigit(c)
    ensures d < 10
    ensures DigitChar(d) == c
  {
    (c as int) - ('0' as int)
  }

  /**
   * The decimal numeral of a natural number: non-empty, all digits, and no
   * leading zero unless the number is zero itself.
   */
  function NatDigits(n: nat): (r: string)
    ensures 0 < |r|
    ensures AllDigits(r)
    ensures r[0] == '0' <==> n == 0
    ensures n < 10 <==> |r| == 1
    decreases n
  {
    if n < 10 then [DigitChar(n)] else NatDigits(n / 10) + [DigitChar(n % 10)]
  }

  /** The decimal rendering of an integer, with a leading minus sign when negative. */
  function Decimal(n: int): (r: string)
    ensures 0 < |r|
    ensures n < 0 <==> r[0] == '-'
    ensures n < 0 ==> AllDigits(r[1..])
    ensures 0 <= n ==> AllDigits(r)
  {
    if n < 0 then "-" + NatDigits(-n) else NatDigits(n)
  }

  /** The value of a string of digits read most-significant first. */
  function DigitsValue(s: string): nat
    requires AllDigits(s)
    decreases |s|
  {
    if s == [] then 0 else DigitsValue(s[..|s| - 1]) * 10 + DigitValue(s[|s| - 1])
  }

  /** Reads back an integer rendered by `Decimal`; `None` for anything that is not a numeral. */
  function ParseDecimal(s: string): Option<int>
  {
    if 1 < |s| && s[0] == '-' && AllDigits(s[1..]) then Some(-(DigitsValue(s[1..]) as int))
    else if 0 < |s| && AllDigits(s) then Some(DigitsValue(s))
    else None
  }

  lemma {:induction false} NatDigitsValue(n: nat)
    ensures DigitsValue(NatDigits(n)) == n
    decreases n
  {
    if n >= 10 {
      var s := NatDigits(n);
      assert s[..|s| - 1] == NatDigits(n / 10);
      NatDigitsValue(n / 10);
    }
  }

  /** Every integer is recovered from its decimal rendering. */
  lemma DecimalRoundTrip(n: int)
    ensures ParseDecimal(Decimal(n)) == Some(n)
  {
    if n < 0 {
      assert Decimal(n)[1..] == NatDigits(-n);
      NatDigitsValue(-n);
    } else {
      NatDigitsValue(n);
    }
  }

  /**
   * Splits `s` at the first occurrence of `c`: the part before it (which holds
   * no `c`) and the part after it; `None` when `c` does not occur.
   */
  function SplitAtFirst(s: string, c: char): (r: Option<(string, string)>)
    ensures r.None? <==> c !in s
    ensures r.Some? ==> s == r.value.0 + [c] + r.value.1 && c !in r.value.0
    decreases |s|
  {
    if s == [] then None
    else if s[0] == c then Some(([], s[1..]))
    else
      match SplitAtFirst(s[1..], c)
      case None => None
      case Some(parts) => Some(([s[0]] + parts.0, parts.1))
  }

  /** A string put together around `c` splits back into its parts when the first part holds no `c`. */
  lemma {:induction false} SplitAtFirstJoin(a: string, c: char, b: string)
    requires c !in a
    ensures SplitAtFirst(a + [c] + b, c) == Some((a, b))
    decreases |a|
  {
    var s := a + [c] + b;
    if a != [] {
      assert s[1..] == a[1..] + [c] + b;
      SplitAtFirstJoin(a[1..], c, b);
      assert [a[0]] + a[1..] == a;
    } else {
      assert s[1..] == b;
    }
  }

  /** The label of a book: its author, a comma and a space, then its title. */
  function BookLabel(b: Book): (r: string)
    ensures |r| == |b.author| + 2 + |b.name|
    ensures r[..|b.author|] == b.author
    ensures r[|b.author|..|b.author| + 2] == ", "
    ensures r[|b.author| + 2..] == b.name
  {
    b.author + ", " + b.name
  }

  /** The label of a hall: `number: `, its sequence number in decimal, a space, then its name. */
  function HallLabel(h: Hall): (r: string)
    ensures var n := |Decimal(h.sequenceNumber)|;
      && |r| == 9 + n + |h.name|
      && r[..8] == "number: "
      && r[8..8 + n] == Decimal(h.sequenceNumber)
      && r[8 + n] == ' '
      && r[9 + n..] == h.name
  {
    "number: " + Decimal(h.sequenceNumber) + " " + h.name
  }

  /** The label of a reader: surname, name and second name separated by single spaces. */
  function ReaderLabel(r: Reader): (l: string)
    ensures |l| == |r.surname| + 1 + |r.name| + 1 + |r.secondName|
    ensures l[..|r.surname|] == r.surname && l[|r.surname|] == ' '
    ensures l[|r.surname| + 1..|r.surname| + 1 + |r.name|] == r.name
    ensures l[|r.surname| + 1 + |r.name|] == ' '
    ensures l[|r.surname| + 2 + |r.name|..] == r.secondName
  {
    r.surname + " " + r.name + " " + r.secondName
  }

  /** Recovers (author, title) from a book label. */
  function ParseBookLabel(l: string): Option<(string, string)>
  {
    match SplitAtFirst(l, ',')
    case Some(parts) =>
      if 0 < |parts.1| && parts.1[0] == ' ' then Some((parts.0, parts.1[1..])) else None
    case None => None
  }

  const HallLabelPrefix: string := "number: "

  /** Recovers (sequence number, name) from a hall label. */
  function ParseHallLabel(l: string): Option<(int, string)>
  {
    if |l| < |HallLabelPrefix| || l[..|HallLabelPrefix|] != HallLabelPrefix then None
    else
      match SplitAtFirst(l[|HallLabelPrefix|..], ' ')
      case Some(parts) =>
        (match ParseDecimal(parts.0)
         case Some(n) => Some((n, parts.1))
         case None => None)
      case None => None
  }

  /** Recovers (surname, name, second name) from a reader label. */
  function ParseReaderLabel(l: string): Option<(string, string, string)>
  {
    match SplitAtFirst(l, ' ')
    case Some(first) =>
      (match SplitAtFirst(first.1, ' ')
       case Some(second) => Some((first.0, second.0, second.1))
       case None => None)
    case None => None
  }

  /**
   * A book label is exactly the author, `", "` and the title: when the author
   * holds no comma, both are read back from it.
   */
  lemma BookLabelRoundTrip(b: Book)
    requires ',' !in b.author
    ensures ParseBookLabel(BookLabel(b)) == Some((b.author, b.name))
  {
    assert BookLabel(b) == b.author + [','] + (" " + b.name);
    SplitAtFirstJoin(b.author, ',', " " + b.name);
  }

  /** Every hall label gives back the hall's sequence number and name. */
  lemma HallLabelRoundTrip(h: Hall)
    ensures ParseHallLabel(HallLabel(h)) == Some((h.sequenceNumber, h.name))
  {
    var d := Decimal(h.sequenceNumber);
    var l := HallLabel(h);
    assert l[..|HallLabelPrefix|] == HallLabelPrefix;
    assert l[|HallLabelPrefix|..] == d + [' '] + h.name;
    assert ' ' !in d;
    SplitAtFirstJoin(d, ' ', h.name);
    DecimalRoundTrip(h.sequenceNumber);
  }

  /**
   * A reader label is surname, name and second name joined by spaces: when the
   * surname and name hold no space, all three are read back from it.
   */
  lemma ReaderLabelRoundTrip(r: Reader)
    requires ' ' !in r.surname && ' ' !in r.name
    ensures ParseReaderLabel(ReaderLabel(r)) == Some((r.surname, r.name, r.secondName))
  {
    var rest := r.name + " " + r.secondName;
    assert ReaderLabel(r) == r.surname + [' '] + rest;
    SplitAtFirstJoin(r.surname, ' ', rest);
    assert rest == r.name + [' '] + r.secondName;
    SplitAtFirstJoin(r.name, ' ', r.secondName);
  }

  /** An example: Orwell's 1984 is labelled "Orwell, 1984". */
  lemma BookLabelExample()
    ensures BookLabel(Book("1984", "Orwell", "Secker & Warburg", Date(1949, 6, 8), "84.4")) == "Orwell, 1984"
  {
  }

  /**
   * Reader labels do not identify readers: two readers whose names split
   * differently around a space share one label.
   */
  lemma ReaderLabelAmbiguous(r: Reader)
    ensures ReaderLabel(r.(surname := "Ann Lee", name := "Mary", secondName := "Jo"))
         == ReaderLabel(r.(surname := "Ann", name := "Lee Mary", secondName := "Jo"))
  {
  }
}
