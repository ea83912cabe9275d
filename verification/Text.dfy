/** Decimal numerals, ASCII encoding and the string splitting helpers of the standard library. */
module Text {
  import opened Bytes

  predicate IsDigit(c: char) {
    '0' <= c <= '9'
  }

  predicate AllDigits(s: string) {
    forall i :: 0 <= i < |s| ==> IsDigit(s[i])
  }

  /** `str(n)` for a natural number. */
  function Decimal(n: nat): (s: string)
    ensures s != [] && AllDigits(s)
    ensures |s| > 1 ==> s[0] != '0'
  {
    if n < 10 then ['0' + n as char] else Decimal(n / 10) + ['0' + (n % 10) as char]
  }

  /** `int(s, 10)` for a string of digits. */
  function ParseDecimal(s: string): nat
    requires AllDigits(s)
  {
    if s == [] then 0 else 10 * ParseDecimal(s[..|s| - 1]) + (s[|s| - 1] - '0') as int
  }

  lemma {:induction false} ParseOfDecimal(n: nat)
    ensures ParseDecimal(Decimal(n)) == n
  {
    if n >= 10 {
      ParseOfDecimal(n / 10);
      var s := Decimal(n);
      assert s[..|s| - 1] == Decimal(n / 10);
    }
  }

  /** A numeral without a leading zero is the one `str` prints. */
  lemma {:induction false} DecimalOfParse(s: string)
    requires s != [] && AllDigits(s) && (|s| > 1 ==> s[0] != '0')
    ensures Decimal(ParseDecimal(s)) == s
    ensures s[0] != '0' ==> ParseDecimal(s) > 0
  {
    var front := s[..|s| - 1];
    assert s == front + [s[|s| - 1]];
    if front == [] {
      assert ParseDecimal(front) == 0;
      DecimalAppend(0, (s[|s| - 1] - '0') as int);
    } else {
      DecimalOfParse(front);
      DecimalAppend(ParseDecimal(front), (s[|s| - 1] - '0') as int);
    }
  }

  lemma DecimalAppend(n: nat, digit: nat)
    requires digit < 10
    ensures Decimal(10 * n + digit) == (if n == 0 then [] else Decimal(n)) + ['0' + digit as char]
  {
    assert (10 * n + digit) / 10 == n && (10 * n + digit) % 10 == digit;
  }

  predicate IsAscii(s: string) {
    forall i :: 0 <= i < |s| ==> s[i] < 128 as char
  }

  function EncodeAscii(s: string): (b: seq<byte>)
    requires IsAscii(s)
  {
    seq(|s|, i requires 0 <= i < |s| => s[i] as int)
  }

  function DecodeAscii(b: seq<byte>): (s: Option<string>)
  {
    if exists i :: 0 <= i < |b| && b[i] >= 128 then None
    else Some(seq(|b|, i requires 0 <= i < |b| => b[i] as char))
  }

  lemma DecodeOfEncodeAscii(s: string)
    requires IsAscii(s)
    ensures DecodeAscii(EncodeAscii(s)) == Some(s)
  {
    assert DecodeAscii(EncodeAscii(s)).value == s;
  }

  /** `separator.join(fields)` for a one-character separator. */
  function Join(fields: seq<string>, separator: char): string {
    if fields == [] then ""
    else if |fields| == 1 then fields[0]
    else fields[0] + [separator] + Join(fields[1..], separator)
  }

  /** `s.split(separator)`: one field more than there are separators. */
  function Split(s: string, separator: char): (fields: seq<string>)
    ensures |fields| >= 1
  {
    if s == [] then [""]
    else if s[0] == separator then [""] + Split(s[1..], separator)
    else
      var rest := Split(s[1..], separator);
      [[s[0]] + rest[0]] + rest[1..]
  }

  lemma {:induction false} SplitOfField(field: string, rest: string, separator: char)
    requires separator !in field
    ensures Split(field, separator) == [field]
    ensures Split(field + [separator] + rest, separator) == [field] + Split(rest, separator)
  {
    var s := field + [separator] + rest;
    if field == [] {
      assert s[1..] == rest;
    } else {
      SplitOfField(field[1..], rest, separator);
      assert s[1..] == field[1..] + [separator] + rest;
      assert field == [field[0]] + field[1..];
      assert ([field[1..]] + Split(rest, separator))[1..] == Split(rest, separator);
    }
  }

  /** Splitting undoes joining when no field holds the separator. */
  lemma {:induction false} SplitOfJoin(fields: seq<string>, separator: char)
    requires fields != []
    requires forall f :: f in fields ==> separator !in f
    ensures Split(Join(fields, separator), separator) == fields
  {
    if |fields| == 1 {
      SplitOfField(fields[0], "", separator);
    } else {
      SplitOfJoin(fields[1..], separator);
      SplitOfField(fields[0], Join(fields[1..], separator), separator);
      assert fields == [fields[0]] + fields[1..];
    }
  }

  lemma JoinOfLonger(c: char, fields: seq<string>, separator: char)
    requires fields != []
    ensures Join([[c] + fields[0]] + fields[1..], separator) == [c] + Join(fields, separator)
  {
    var longer := [[c] + fields[0]] + fields[1..];
    assert longer[1..] == fields[1..];
    if |fields| > 1 {
      assert Join(longer, separator) == [c] + (fields[0] + [separator] + Join(fields[1..], separator));
    }
  }

  /** Joining undoes splitting, and no field holds the separator. */
  lemma {:induction false} JoinOfSplit(s: string, separator: char)
    ensures Join(Split(s, separator), separator) == s
    ensures forall f :: f in Split(s, separator) ==> separator !in f
  {
    if s != [] {
      JoinOfSplit(s[1..], separator);
      var rest := Split(s[1..], separator);
      assert s == [s[0]] + s[1..];
      if s[0] == separator {
        assert ([""] + rest)[1..] == rest;
      } else {
        JoinOfLonger(s[0], rest, separator);
      }
    }
  }
}
