/**
 * Values and errors shared by every module: the few PHP scalar values the
 * core stores or passes on, PHP's truthiness and string conversion, and the
 * exceptions of the Techart\Core library that the core throws.
 */
module Core {

  datatype Option<+T> = None | Some(value: T)

  /** A member that either returns a value or throws one of the core's exceptions. */
  datatype Result<+T> = Ok(value: T) | Err(error: Error)

  /** The exceptions the core raises; each carries the property, index or path it concerns. */
  datatype Error =
    | MissingProperty(name: string)
    | ReadOnlyProperty(name: string)
    | UndestroyableProperty(name: string)
    | ReadOnlyObject(name: string)
    | MissingIndexedProperty(index: string)
    | ReadOnlyIndexedProperty(index: string)
    | StatFailure(path: string)
    | StreamOpenFailure(uri: string)
    | StreamCloseFailure

  /** A PHP scalar, as held in the option table, in magic-property arguments and in `self`. */
  datatype Value = Null | Bool(b: bool) | Int(i: int) | Str(s: string)

  /** PHP's conversion to boolean: null, false, 0, "" and "0" are falsy. */
  predicate Truthy(v: Value)
  {
    match v
    case Null => false
    case Bool(b) => b
    case Int(i) => i != 0
    case Str(s) => s != "" && s != "0"
  }

  function DigitChar(d: nat): (c: char)
    requires d < 10
    ensures '0' <= c <= '9'
  {
    "0123456789"[d]
  }

  /** Decimal notation of a natural number, as PHP's `(string)` cast prints it. */
  function NatToString(n: nat): (r: string)
    ensures |r| >= 1
    ensures forall i :: 0 <= i < |r| ==> '0' <= r[i] <= '9'
    ensures (r[0] == '0') <==> (n == 0)
    decreases n
  {
    if n < 10 then [DigitChar(n)] else NatToString(n / 10) + [DigitChar(n % 10)]
  }

  /** PHP's `(string)` cast of a scalar. */
  function ToStr(v: Value): (r: string)
    ensures v.Str? ==> r == v.s
    ensures v.Null? || v == Bool(false) ==> r == ""
    ensures v == Bool(true) ==> r == "1"
    ensures v.Int? && v.i >= 0 ==> r == NatToString(v.i)
    ensures v.Int? && v.i < 0 ==> r == "-" + NatToString(-v.i)
  {
    match v
    case Null => ""
    case Bool(b) => if b then "1" else ""
    case Int(i) => if i < 0 then "-" + NatToString(-i) else NatToString(i)
    case Str(s) => s
  }

  /** The whitespace PHP skips before a numeric string. */
  predicate IsSpace(c: char)
  {
    c == ' ' || c == '\t' || c == '\n' || c == '\r' || c == '\U{B}' || c == '\U{C}'
  }

  predicate IsDigit(c: char)
  {
    '0' <= c <= '9'
  }

  /** The number the decimal digits `ds` spell. */
  function DigitsValue(ds: string): nat
    requires forall i :: 0 <= i < |ds| ==> IsDigit(ds[i])
  {
    if ds == [] then 0
    else
      assert IsDigit(ds[|ds| - 1]);
      DigitsValue(ds[..|ds| - 1]) * 10 + (ds[|ds| - 1] as int - '0' as int)
  }

  /** The length of the run of decimal digits `s` starts with. */
  function DigitRun(s: string): (n: nat)
    ensures n <= |s|
    ensures forall i :: 0 <= i < n ==> IsDigit(s[i])
    ensures n < |s| ==> !IsDigit(s[n])
  {
    if s != [] && IsDigit(s[0]) then 1 + DigitRun(s[1..]) else 0
  }

  /**
   * The integer a string's leading number spells: whitespace is skipped, a
   * sign may follow, then at least one digit; whatever comes after the
   * digits is ignored. None when no digit is there.
   */
  function LeadingInt(s: string): (r: Option<int>)
    decreases |s|
  {
    if s != [] && IsSpace(s[0]) then LeadingInt(s[1..])
    else
      var signed := s != [] && (s[0] == '-' || s[0] == '+');
      var ds := if signed then s[1..] else s;
      var n := DigitRun(ds);
      var v: int := if n == 0 then 0 else DigitsValue(ds[..n]);
      if n == 0 then None
      else if signed && s[0] == '-' then Some(-v)
      else Some(v)
  }

  /**
   * A scalar passed to an `int` parameter of a PHP built-in (chmod's and
   * mkdir's mode) under weak typing: null and booleans become 0 and 1, a
   * string its leading integer; None when a string holds no number, for
   * which the built-in fails without doing anything.
   */
  function IntArg(v: Value): (r: Option<int>)
    ensures v.Int? ==> r == Some(v.i)
    ensures v.Null? || v == Bool(false) ==> r == Some(0)
    ensures v == Bool(true) ==> r == Some(1)
    ensures v.Str? ==> r == LeadingInt(v.s)
  {
    match v
    case Null => Some(0)
    case Bool(b) => Some(if b then 1 else 0)
    case Int(i) => Some(i)
    case Str(s) => LeadingInt(s)
  }

  /** The decimal digits NatToString prints spell the number back. */
  lemma {:induction false} NatToStringValue(n: nat)
    ensures DigitRun(NatToString(n)) == |NatToString(n)|
    ensures DigitsValue(NatToString(n)) == n
    decreases n
  {
    var r := NatToString(n);
    DigitCharValue(n % 10);
    if n < 10 {
      assert r == [DigitChar(n)] && r[..0] == [];
    } else {
      var q := NatToString(n / 10);
      assert r == q + [DigitChar(n % 10)];
      NatToStringValue(n / 10);
      assert r[..|r| - 1] == q;
    }
    DigitRunAll(r);
  }

  /** The digit character for `d` is `d` places after '0'. */
  lemma DigitCharValue(d: nat)
    requires d < 10
    ensures DigitChar(d) as int - '0' as int == d
  {
    var digits := "0123456789";
    assert digits[0] == '0' && digits[1] == '1' && digits[2] == '2' && digits[3] == '3' && digits[4] == '4';
    assert digits[5] == '5' && digits[6] == '6' && digits[7] == '7' && digits[8] == '8' && digits[9] == '9';
  }

  lemma {:induction false} DigitRunAll(s: string)
    requires forall i :: 0 <= i < |s| ==> IsDigit(s[i])
    ensures DigitRun(s) == |s|
    decreases |s|
  {
    if s != [] {
      DigitRunAll(s[1..]);
    }
  }

  /** A run of digits reads as its value, and with a minus sign in front as the negated value. */
  lemma LeadingDigits(ds: string)
    requires |ds| >= 1 && forall i :: 0 <= i < |ds| ==> IsDigit(ds[i])
    ensures LeadingInt(ds) == Some(DigitsValue(ds))
    ensures LeadingInt("-" + ds) == Some(-(DigitsValue(ds) as int))
  {
    DigitRunAll(ds);
    assert ds[..|ds|] == ds;
    assert !IsSpace(ds[0]);
    assert ("-" + ds)[1..] == ds;
  }

  /** A number the `(string)` cast printed reads back as the same integer. */
  lemma IntArgOfPrinted(i: int)
    ensures IntArg(Str(ToStr(Int(i)))) == Some(i)
  {
    var n: nat := if i < 0 then -i else i;
    NatToStringValue(n);
    LeadingDigits(NatToString(n));
  }

  /** A string mode such as "0755" reads as the decimal number, not as octal; one without digits fails. */
  lemma IntArgOfStrings()
    ensures IntArg(Str("0755")) == Some(755)
    ensures IntArg(Str("abc")).None? && IntArg(Str("")).None?
  {
    OctalLookingValue();
    LeadingDigits("0755");
    assert DigitRun("abc") == 0;
  }

  lemma OctalLookingValue()
    ensures DigitsValue("0755") == 755
  {
    assert "0755"[..3] == "075" && "075"[..2] == "07" && "07"[..1] == "0" && "0"[..0] == "";
  }

  /** The stored value behind a PHP `isset` test: a null entry reads as absent. */
  function IssetOr(m: map<string, Value>, key: string): (r: Value)
    ensures key in m && m[key] != Null ==> r == m[key]
    ensures key !in m || m[key] == Null ==> r == Null
  {
    if key in m then m[key] else Null
  }
}
