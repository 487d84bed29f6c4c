/** Names of log files: next_file builds them, get_lsn_from_filename reads them back
    (src/dimserver/storage/clog/log_file.cpp), with std::to_string and std::stol spelled out. */
module LogNames {
  import opened Bytes
  import opened Options

  const PREFIX: string := "clog_"
  const SUFFIX: string := ".log"

  predicate StartsWith(s: string, prefix: string) {
    |s| >= |prefix| && s[..|prefix|] == prefix
  }

  predicate EndsWith(s: string, suffix: string) {
    |s| >= |suffix| && s[|s| - |suffix|..] == suffix
  }

  function DigitChar(d: nat): char
    requires d < 10
  {
    "0123456789"[d]
  }

  predicate IsDigit(c: char) {
    '0' <= c <= '9'
  }

  function DigitValue(c: char): nat
    requires IsDigit(c)
  {
    c as int - '0' as int
  }

  predicate IsSpace(c: char) {
    c == ' ' || '\t' <= c <= '\r'
  }

  function Decimal(n: nat): string {
    if n < 10 then [DigitChar(n)] else Decimal(n / 10) + [DigitChar(n % 10)]
  }

  /** std::to_string */
  function ToString(v: int): string {
    if v < 0 then "-" + Decimal(-v) else Decimal(v)
  }

  /** The value of the digits at the front of s, read on from `acc`. */
  function ReadDigits(s: string, acc: nat): nat {
    if s == [] || !IsDigit(s[0]) then acc else ReadDigits(s[1..], 10 * acc + DigitValue(s[0]))
  }

  function SkipSpaces(s: string): string {
    if s != [] && IsSpace(s[0]) then SkipSpaces(s[1..]) else s
  }

  /** std::stol: leading blanks and a sign are allowed, anything after the digits is ignored; None where
      it throws. */
  function Stol(s: string): Option<Int64> {
    var t := SkipSpaces(s);
    var negative := t != [] && t[0] == '-';
    var digits := if t != [] && (t[0] == '-' || t[0] == '+') then t[1..] else t;
    if digits == [] || !IsDigit(digits[0]) then None
    else
      var n: int := ReadDigits(digits, 0);
      var v := if negative then -n else n;
      if -TWO_63 <= v < TWO_63 then Some(v) else None
  }

  function FileName(lsn: Int64): string {
    PREFIX + ToString(lsn) + SUFFIX
  }

  /** get_lsn_from_filename; None for FILE_NAME_INVALID. */
  function LsnOf(name: string): Option<Int64> {
    if !StartsWith(name, PREFIX) || !EndsWith(name, SUFFIX) then None
    else
      AffixesApart(name);
      Stol(name[|PREFIX|..|name| - |SUFFIX|])
  }

  /** A name passing both affix tests has room for both, so cutting the prefix and then the suffix off
      never runs past the end. */
  lemma AffixesApart(name: string)
    requires StartsWith(name, PREFIX) && EndsWith(name, SUFFIX)
    ensures |name| >= |PREFIX| + |SUFFIX|
  {
    assert name[4] == name[..5][4] == '_';
    assert forall i :: 0 <= i < 4 ==> name[|name| - 4..][i] == name[|name| - 4 + i] == SUFFIX[i];
  }

  lemma {:induction false} DecimalDigits(n: nat)
    ensures Decimal(n) != [] && forall i :: 0 <= i < |Decimal(n)| ==> IsDigit(Decimal(n)[i])
  {
    if n >= 10 {
      DecimalDigits(n / 10);
    }
  }

  lemma {:induction false} ReadConcat(a: string, b: string, acc: nat)
    requires forall i :: 0 <= i < |a| ==> IsDigit(a[i])
    ensures ReadDigits(a + b, acc) == ReadDigits(b, ReadDigits(a, acc))
    decreases |a|
  {
    if a == [] {
      assert a + b == b;
    } else {
      assert (a + b)[1..] == a[1..] + b;
      ReadConcat(a[1..], b, 10 * acc + DigitValue(a[0]));
    }
  }

  lemma {:induction false} DecimalRoundTrip(n: nat)
    ensures ReadDigits(Decimal(n), 0) == n
  {
    if n < 10 {
      assert Decimal(n)[1..] == [];
    } else {
      DecimalRoundTrip(n / 10);
      DecimalDigits(n / 10);
      ReadConcat(Decimal(n / 10), [DigitChar(n % 10)], 0);
      assert [DigitChar(n % 10)][1..] == [];
    }
  }

  lemma StolRoundTrip(v: Int64)
    ensures Stol(ToString(v)) == Some(v)
  {
    var s := ToString(v);
    var w: int := v;
    var m := if w < 0 then -w else w;
    DecimalDigits(m);
    DecimalRoundTrip(m);
    if v < 0 {
      assert s[0] == '-' && s[1..] == Decimal(m);
    } else {
      assert IsDigit(s[0]);
    }
  }

  /** The name next_file builds for an LSN gives that LSN back, whatever the LSN. */
  lemma NameRoundTrip(lsn: Int64)
    ensures LsnOf(FileName(lsn)) == Some(lsn)
  {
    var name := FileName(lsn);
    assert name[..|PREFIX|] == PREFIX;
    assert name[|name| - |SUFFIX|..] == SUFFIX;
    assert name[|PREFIX|..|name| - |SUFFIX|] == ToString(lsn);
    StolRoundTrip(lsn);
  }

  lemma NamesDistinct(a: Int64, b: Int64)
    requires FileName(a) == FileName(b)
    ensures a == b
  {
    NameRoundTrip(a);
    NameRoundTrip(b);
  }

  // ---------- Exactly which names are log file names ----------

  /** The number a string of decimal digits stands for, the last digit counting one. */
  function Number(digits: string): int {
    if digits == "" then 0
    else 10 * Number(digits[..|digits| - 1]) + (digits[|digits| - 1] as int - 48)
  }

  ghost predicate AllIn(s: string, chars: string) {
    forall c <- s :: c in chars
  }

  /** The name is the prefix, white space, at most one sign, digits, anything that does not go on with a
      digit, and the suffix; v is the number with its sign. */
  ghost predicate NameOf(name: string, blanks: string, sign: string, digits: string, rest: string, v: int) {
    && name == "clog_" + blanks + sign + digits + rest + ".log"
    && AllIn(blanks, " \t\n\U{000B}\U{000C}\r") && (sign == "" || sign == "+" || sign == "-")
    && digits != "" && AllIn(digits, "0123456789")
    && (rest == "" || rest[0] !in "0123456789")
    && v == if sign == "-" then -Number(digits) else Number(digits)
  }

  lemma CharClasses(c: char)
    ensures IsDigit(c) <==> c in "0123456789"
    ensures IsSpace(c) <==> c in " \t\n\U{000B}\U{000C}\r"
    ensures IsDigit(c) ==> DigitValue(c) == c as int - 48
  {
    var s := " \t\n\U{000B}\U{000C}\r";
    assert s[0] == ' ' && s[1] == '\t' && s[2] == '\n' && s[3] == '\U{000B}' && s[4] == '\U{000C}' && s[5] == '\r';
    var d := "0123456789";
    assert d[0] == '0' && d[1] == '1' && d[2] == '2' && d[3] == '3' && d[4] == '4';
    assert d[5] == '5' && d[6] == '6' && d[7] == '7' && d[8] == '8' && d[9] == '9';
  }

  lemma AreDigits(digits: string)
    requires AllIn(digits, "0123456789")
    ensures forall i :: 0 <= i < |digits| ==> IsDigit(digits[i])
  {
    forall i | 0 <= i < |digits| ensures IsDigit(digits[i]) {
      CharClasses(digits[i]);
    }
  }

  /** One more digit at the end. */
  lemma ReadsOneMore(front: string, last: char)
    requires AllIn(front, "0123456789") && IsDigit(last)
    ensures ReadDigits(front + [last], 0) == 10 * ReadDigits(front, 0) + DigitValue(last)
  {
    AreDigits(front);
    ReadConcat(front, [last], 0);
    var acc := ReadDigits(front, 0);
    assert ReadDigits([last], acc) == ReadDigits([last][1..], 10 * acc + DigitValue(last));
  }

  lemma {:induction false} ReadsDigits(digits: string)
    requires AllIn(digits, "0123456789")
    ensures ReadDigits(digits, 0) == Number(digits)
    decreases |digits|
  {
    if digits != "" {
      var front, last := digits[..|digits| - 1], digits[|digits| - 1];
      CharClasses(last);
      assert digits == front + [last];
      ReadsDigits(front);
      ReadsOneMore(front, last);
    }
  }

  /** The number `ReadDigits` arrives at, whatever follows the digits. */
  lemma ReadsNumber(digits: string, rest: string)
    requires AllIn(digits, "0123456789") && (rest == "" || rest[0] !in "0123456789")
    ensures ReadDigits(digits + rest, 0) == Number(digits)
  {
    AreDigits(digits);
    if rest != "" {
      CharClasses(rest[0]);
    }
    ReadConcat(digits, rest, 0);
    ReadsDigits(digits);
    hide Number;
  }

  lemma {:induction false} SkipsBlanks(blanks: string, t: string)
    requires AllIn(blanks, " \t\n\U{000B}\U{000C}\r") && (t == "" || !IsSpace(t[0]))
    ensures SkipSpaces(blanks + t) == t
  {
    if blanks == "" {
      assert blanks + t == t;
    } else {
      CharClasses(blanks[0]);
      assert (blanks + t)[1..] == blanks[1..] + t;
      SkipsBlanks(blanks[1..], t);
    }
  }

  /** The string in front of what `SkipSpaces` leaves. */
  lemma {:induction false} LeadingBlanks(s: string) returns (blanks: string)
    ensures AllIn(blanks, " \t\n\U{000B}\U{000C}\r") && s == blanks + SkipSpaces(s)
  {
    if s != "" && IsSpace(s[0]) {
      CharClasses(s[0]);
      var more := LeadingBlanks(s[1..]);
      blanks := [s[0]] + more;
    } else {
      blanks := "";
    }
  }

  /** The digits at the front of a string, and what follows them. */
  lemma {:induction false} LeadingDigits(s: string) returns (digits: string, rest: string)
    ensures s == digits + rest && AllIn(digits, "0123456789") && (rest == "" || rest[0] !in "0123456789")
  {
    if s != "" && IsDigit(s[0]) {
      CharClasses(s[0]);
      digits, rest := LeadingDigits(s[1..]);
      digits := [s[0]] + digits;
    } else {
      digits, rest := "", s;
      if s != "" {
        CharClasses(s[0]);
      }
    }
  }

  /** `Stol` once the blanks are skipped. */
  lemma StolBehindBlanks(s: string, sign: string, digits: string)
    requires SkipSpaces(s) == sign + digits && digits != "" && IsDigit(digits[0])
    requires sign == "" || sign == "+" || sign == "-"
    ensures var n: int := ReadDigits(digits, 0);
            var v := if sign == "-" then -n else n;
            Stol(s) == if -TWO_63 <= v < TWO_63 then Some(v) else None
  {
    hide ReadDigits, SkipSpaces;
    assert (sign + digits)[|sign|..] == digits;
    assert (sign + digits)[0] == if sign == "" then digits[0] else sign[0];
  }

  /** What `Stol` takes apart. */
  lemma StolParts(s: string, blanks: string, sign: string, digits: string, rest: string)
    requires s == blanks + sign + digits + rest && digits != ""
    requires AllIn(blanks, " \t\n\U{000B}\U{000C}\r") && (sign == "" || sign == "+" || sign == "-")
    requires AllIn(digits, "0123456789") && (rest == "" || rest[0] !in "0123456789")
    ensures var v := if sign == "-" then -Number(digits) else Number(digits);
            Stol(s) == if -TWO_63 <= v < TWO_63 then Some(v) else None
  {
    hide ReadDigits, Number, SkipSpaces, Stol;
    var t := sign + (digits + rest);
    CharClasses(digits[0]);
    assert t[0] == (if sign == "" then digits[0] else sign[0]) && (digits + rest)[0] == digits[0];
    assert s == blanks + t;
    SkipsBlanks(blanks, t);
    ReadsNumber(digits, rest);
    StolBehindBlanks(s, sign, digits + rest);
  }

  /** get_lsn_from_filename gives v exactly for the names that spell v. */
  lemma LsnOfExactly(name: string, v: Int64)
    ensures LsnOf(name) == Some(v) <==> exists blanks, sign, digits, rest :: NameOf(name, blanks, sign, digits, rest, v)
  {
    if blanks, sign, digits, rest :| NameOf(name, blanks, sign, digits, rest, v) {
      Spelled(name, blanks, sign, digits, rest, v);
    }
    if LsnOf(name) == Some(v) {
      var blanks, sign, digits, rest := Spelling(name, v);
    }
  }

  lemma Spelled(name: string, blanks: string, sign: string, digits: string, rest: string, v: Int64)
    requires NameOf(name, blanks, sign, digits, rest, v)
    ensures LsnOf(name) == Some(v)
  {
    var m := blanks + sign + digits + rest;
    assert name == PREFIX + m + SUFFIX;
    assert name[..|PREFIX|] == PREFIX && name[|name| - |SUFFIX|..] == SUFFIX;
    assert name[|PREFIX|..|name| - |SUFFIX|] == m;
    StolParts(m, blanks, sign, digits, rest);
  }

  lemma Spelling(name: string, v: Int64) returns (blanks: string, sign: string, digits: string, rest: string)
    requires LsnOf(name) == Some(v)
    ensures NameOf(name, blanks, sign, digits, rest, v)
  {
    AffixesApart(name);
    var m := name[|PREFIX|..|name| - |SUFFIX|];
    blanks, sign, digits, rest := Parsed(m);
    assert name == PREFIX + m + SUFFIX;
    hide Stol, Number;
    StolParts(m, blanks, sign, digits, rest);
  }

  function SignOf(t: string): string {
    if t != "" && t[0] == '-' then "-" else if t != "" && t[0] == '+' then "+" else ""
  }

  /** What `Stol` accepts goes on with a digit behind blanks and sign. */
  lemma StolShape(m: string)
    requires Stol(m).Some?
    ensures var t, sign := SkipSpaces(m), SignOf(SkipSpaces(m));
            |t| > |sign| && t == sign + t[|sign|..] && IsDigit(t[|sign|])
  {
    hide SkipSpaces, ReadDigits;
  }

  lemma Parsed(m: string) returns (blanks: string, sign: string, digits: string, rest: string)
    requires Stol(m).Some?
    ensures m == blanks + sign + digits + rest && digits != ""
    ensures AllIn(blanks, " \t\n\U{000B}\U{000C}\r") && AllIn(digits, "0123456789")
    ensures sign == "" || sign == "+" || sign == "-"
    ensures rest == "" || rest[0] !in "0123456789"
  {
    hide Stol, SkipSpaces, AllIn;
    StolShape(m);
    blanks := LeadingBlanks(m);
    var t := SkipSpaces(m);
    sign := SignOf(t);
    digits, rest := LeadingDigits(t[|sign|..]);
    CharClasses(t[|sign|]);
    assert t == sign + digits + rest && m == blanks + t;
  }

  /** The name next_file builds is the LSN in decimal without leading zeros between prefix and suffix. */
  lemma FileNameIs(lsn: Int64)
    ensures exists digits :: Canonical(FileName(lsn), lsn, digits)
  {
    var n: int := lsn;
    var digits := Decimal(if n < 0 then -n else n);
    DecimalIs(if n < 0 then -n else n);
    assert Canonical(FileName(lsn), lsn, digits);
  }

  ghost predicate Canonical(name: string, v: int, digits: string) {
    && name == "clog_" + (if v < 0 then "-" else "") + digits + ".log"
    && digits != "" && AllIn(digits, "0123456789") && (digits[0] == '0' ==> digits == "0")
    && Number(digits) == if v < 0 then -v else v
  }

  lemma {:induction false} DecimalIs(n: nat)
    ensures var d := Decimal(n);
            d != "" && AllIn(d, "0123456789") && (d[0] == '0' ==> n == 0 && d == "0") && Number(d) == n
  {
    var last := DigitChar(n % 10);
    CharClasses(last);
    assert last as int - 48 == n % 10;
    if n >= 10 {
      DecimalIs(n / 10);
    } else {
      assert [last][..0] == "";
    }
  }

  lemma SmallNumbers()
    ensures Number("3") == 3 && Number("5") == 5 && Number("007") == 7
  {
    assert "007"[..2] == "00" && "00"[..1] == "0" && "0"[..0] == "" && "3"[..0] == "" && "5"[..0] == "";
    assert Number("0") == 0 && Number("00") == 0;
  }

  /** A backup is not a log file; zeros in front of the number and text behind it do not matter. */
  lemma NameExamples()
    ensures LsnOf("clog_7.bak") == None && LsnOf("log_7.log") == None
    ensures LsnOf("clog_007.log") == Some(7) && LsnOf("clog_5.old.log") == Some(5) && LsnOf("clog_ -3.log") == Some(-3)
  {
    hide Stol, Number;
    SmallNumbers();
    assert "clog_7.bak"[6..] == ".bak" && ".bak"[1] != ".log"[1];
    assert "log_7.log"[..5][0] == 'l';
    Spelled("clog_007.log", "", "", "007", "", 7);
    Spelled("clog_5.old.log", "", "", "5", ".old", 5);
    Spelled("clog_ -3.log", " ", "-", "3", "", -3);
  }
}
