/** size_label and its inverse: labels name sizes one to one, so aligning by label is aligning by size. */
module SizeLabel {
  import opened Bytes

  const MIB := 1048576
  const KIB := 1024

  predicate IsDigit(c: char) {
    '0' <= c <= '9'
  }

  function Digit(d: nat): char
    requires d < 10
  {
    '0' + d as char
  }

  function Decimal(n: nat): string {
    if n < 10 then [Digit(n)] else Decimal(n / 10) + [Digit(n % 10)]
  }

  function Text(n: int): string {
    if n < 0 then "-" + Decimal(-n) else Decimal(n)
  }

  function Label(n: int): string {
    if n >= MIB && n % MIB == 0 then Text(n / MIB) + "MiB"
    else if n >= KIB && n % KIB == 0 then Text(n / KIB) + "KiB"
    else Text(n) + "B"
  }

  // --------------------------------------------------------------------- parser

  /** The number continued by the leading digits of s, and what follows them. */
  function ReadDigits(acc: nat, s: string): (nat, string)
    decreases |s|
  {
    if s != "" && IsDigit(s[0]) then ReadDigits(10 * acc + (s[0] - '0') as nat, s[1..]) else (acc, s)
  }

  function Unit(s: string): Option<int> {
    if s == "MiB" then Some(MIB)
    else if s == "KiB" then Some(KIB)
    else if s == "B" then Some(1)
    else None
  }

  function ParseLabel(s: string): Option<int> {
    var negative := s != "" && s[0] == '-';
    var (n, rest) := ReadDigits(0, if negative then s[1..] else s);
    match Unit(rest)
    case None => None
    case Some(u) => Some((if negative then -1 else 1) * n * u)
  }

  lemma {:induction false} ReadDecimal(n: nat, rest: string)
    ensures ReadDigits(0, Decimal(n) + rest) == ReadDigits(n, rest)
    decreases n
  {
    var tail := [Digit(n % 10)] + rest;
    assert tail[1..] == rest;
    if n < 10 {
      assert Decimal(n) + rest == tail;
    } else {
      assert Decimal(n) + rest == Decimal(n / 10) + tail;
      ReadDecimal(n / 10, tail);
    }
  }

  lemma {:induction false} DecimalStartsWithDigit(n: nat)
    ensures Decimal(n) != "" && IsDigit(Decimal(n)[0])
    decreases n
  {
    if n >= 10 {
      DecimalStartsWithDigit(n / 10);
    }
  }

  lemma ParseText(n: int, unit: string)
    requires Unit(unit).Some?
    ensures ParseLabel(Text(n) + unit) == Some(n * Unit(unit).value)
  {
    var m := if n < 0 then -n else n;
    ReadDecimal(m, unit);
    DecimalStartsWithDigit(m);
    assert ReadDigits(m, unit) == (m, unit);
    var s := Text(n) + unit;
    if n < 0 {
      assert s[1..] == Decimal(m) + unit;
    }
  }

  /** The parser undoes the label, for every integer and so for every positive size. */
  lemma LabelRoundTrip(n: int)
    ensures ParseLabel(Label(n)) == Some(n)
  {
    if n >= MIB && n % MIB == 0 {
      ParseText(n / MIB, "MiB");
    } else if n >= KIB && n % KIB == 0 {
      ParseText(n / KIB, "KiB");
    } else {
      ParseText(n, "B");
    }
  }

  lemma LabelInjective(m: int, n: int)
    ensures Label(m) == Label(n) <==> m == n
  {
    LabelRoundTrip(m);
    LabelRoundTrip(n);
  }

  lemma DecimalTexts()
    ensures Decimal(1) == "1" && Decimal(4) == "4" && Decimal(10) == "10" && Decimal(16) == "16"
    ensures Decimal(64) == "64" && Decimal(256) == "256" && Decimal(1000) == "1000" && Decimal(1025) == "1025"
  {
    assert Decimal(25) == "25";
    assert Decimal(100) == Decimal(10) + "0";
    assert Decimal(102) == Decimal(10) + "2";
  }

  /** The text itself, on the sizes of the results table and around them. */
  lemma LabelTexts()
    ensures Label(64) == "64B" && Label(1024) == "1KiB" && Label(16384) == "16KiB" && Label(65536) == "64KiB"
    ensures Label(262144) == "256KiB" && Label(1048576) == "1MiB" && Label(4194304) == "4MiB"
    ensures Label(10485760) == "10MiB"
    ensures Label(1000) == "1000B" && Label(1025) == "1025B" && Label(1049600) == "1025KiB"
  {
    DecimalTexts();
    hide Decimal;
  }
}
