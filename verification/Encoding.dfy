/** Byte-level codecs: hexadecimal text, big-endian integers, decimal text and separator-split text
    (server/services/converters.go, and the library calls the repository makes).

    A Go string is a sequence of bytes, so both `string` and `[]byte` are modelled as sequences of
    characters below 256. */
module Encoding {
  type Byte = c: char | c as int < 256 witness '0'

  type Bytes = seq<Byte>

  datatype Option<+T> = None | Some(value: T)

  // ---------------------------------------------------------------- hexadecimal

  function HexDigit(d: int): Byte
    requires 0 <= d < 16
  {
    if d < 10 then (d + 48) as char else (d + 87) as char
  }

  /** The value of one hexadecimal digit; both cases are read, only lower case is written. */
  function HexValue(c: char): (v: Option<int>)
    ensures v.Some? ==> 0 <= v.value < 16
  {
    if '0' <= c <= '9' then Some(c as int - 48)
    else if 'a' <= c <= 'f' then Some(c as int - 87)
    else if 'A' <= c <= 'F' then Some(c as int - 55)
    else None
  }

  function HexEncode(bytes: Bytes): Bytes {
    if bytes == [] then []
    else [HexDigit(bytes[0] as int / 16), HexDigit(bytes[0] as int % 16)] + HexEncode(bytes[1..])
  }

  /** Odd length and foreign characters are errors (section 8 of RFC 4648, as Go reads it). */
  function HexDecode(text: string): Option<Bytes> {
    if text == [] then Some([])
    else if |text| == 1 then None
    else
      match (HexValue(text[0]), HexValue(text[1]), HexDecode(text[2..]))
      case (Some(hi), Some(lo), Some(rest)) => Some([(16 * hi + lo) as char] + rest)
      case _ => None
  }

  lemma {:induction false} HexDigitValue(d: int)
    requires 0 <= d < 16
    ensures HexValue(HexDigit(d)) == Some(d)
  {
  }

  lemma {:induction false} HexRoundTrip(bytes: Bytes)
    ensures HexDecode(HexEncode(bytes)) == Some(bytes)
  {
    if bytes != [] {
      var b := bytes[0] as int;
      HexDigitValue(b / 16);
      HexDigitValue(b % 16);
      HexRoundTrip(bytes[1..]);
      assert HexEncode(bytes)[2..] == HexEncode(bytes[1..]);
      assert bytes == [bytes[0]] + bytes[1..];
    }
  }

  /** Hex text is twice as long as what it encodes and holds hexadecimal digits only,
      hence neither of the separators '@' and '-'. */
  lemma {:induction false} HexText(bytes: Bytes)
    ensures |HexEncode(bytes)| == 2 * |bytes|
    ensures forall i :: 0 <= i < |HexEncode(bytes)| ==> HexValue(HexEncode(bytes)[i]).Some?
    ensures '@' !in HexEncode(bytes) && '-' !in HexEncode(bytes)
  {
    if bytes != [] {
      HexDigitValue(bytes[0] as int / 16);
      HexDigitValue(bytes[0] as int % 16);
      HexText(bytes[1..]);
    }
  }

  function EnsureEvenLengthOfHexString(hexString: Bytes): Bytes {
    if |hexString| % 2 == 1 then "0" + hexString else hexString
  }

  // ---------------------------------------------------------------- big-endian naturals

  /** `big.Int.SetBytes` */
  function BytesToNat(bytes: Bytes): nat {
    if bytes == [] then 0
    else 256 * BytesToNat(bytes[..|bytes| - 1]) + bytes[|bytes| - 1] as int
  }

  /** `big.Int.Bytes`: minimal, and empty for zero. */
  function NatToBytes(n: nat): Bytes {
    if n == 0 then [] else NatToBytes(n / 256) + [(n % 256) as char]
  }

  predicate Minimal(bytes: Bytes) {
    bytes == [] || bytes[0] as int != 0
  }

  lemma {:induction false} NatBytesRoundTrip(n: nat)
    ensures BytesToNat(NatToBytes(n)) == n
    ensures Minimal(NatToBytes(n))
  {
    if n != 0 {
      NatBytesRoundTrip(n / 256);
      var bytes := NatToBytes(n);
      assert bytes[..|bytes| - 1] == NatToBytes(n / 256);
    }
  }

  lemma {:induction false} BytesNatRoundTrip(bytes: Bytes)
    requires Minimal(bytes)
    ensures NatToBytes(BytesToNat(bytes)) == bytes
    ensures bytes != [] ==> BytesToNat(bytes) > 0
  {
    if bytes != [] {
      var init := bytes[..|bytes| - 1];
      BytesNatRoundTrip(init);
      assert bytes == init + [bytes[|bytes| - 1]];
    }
  }

  // ---------------------------------------------------------------- decimal text

  function DecDigit(d: int): Byte
    requires 0 <= d < 10
  {
    (d + 48) as char
  }

  /** `big.Int.String` of a natural number */
  function NatToDec(n: nat): Bytes {
    if n < 10 then [DecDigit(n)] else NatToDec(n / 10) + [DecDigit(n % 10)]
  }

  function DecDigitsToNat(text: string): Option<nat> {
    if text == [] then Some(0)
    else
      var last := text[|text| - 1];
      match DecDigitsToNat(text[..|text| - 1])
      case Some(n) => if '0' <= last <= '9' then Some(10 * n + (last as int - 48)) else None
      case None => None
  }

  /** `big.Int.SetString` in base 10: an optional sign, then at least one digit. */
  function ParseDec(text: string): Option<int> {
    if text == [] then None
    else if text[0] == '-' || text[0] == '+' then
      if |text| == 1 then None
      else
        match DecDigitsToNat(text[1..])
        case Some(n) => Some(if text[0] == '-' then 0 - n else n)
        case None => None
    else DecDigitsToNat(text)
  }

  lemma {:induction false} DecDigitsRoundTrip(n: nat)
    ensures DecDigitsToNat(NatToDec(n)) == Some(n)
    ensures |NatToDec(n)| > 0
    ensures forall i :: 0 <= i < |NatToDec(n)| ==> '0' <= NatToDec(n)[i] <= '9'
  {
    var text := NatToDec(n);
    if n < 10 {
      assert text[..|text| - 1] == [];
    } else {
      DecDigitsRoundTrip(n / 10);
      assert text[..|text| - 1] == NatToDec(n / 10);
    }
  }

  /** Decimal text of a natural number and of its negation parse back. */
  lemma {:induction false} DecRoundTrip(n: nat)
    ensures ParseDec(NatToDec(n)) == Some(n)
    ensures ParseDec("-" + NatToDec(n)) == Some(0 - n)
  {
    DecDigitsRoundTrip(n);
    assert ("-" + NatToDec(n))[1..] == NatToDec(n);
  }

  predicate IsZeroAmount(amount: string) {
    amount == "" || ParseDec(amount) == Some(0)
  }

  // `strings.Trim(amount, "-")` drops every dash at either end.
  function TrimLeft(text: string): string {
    if text != [] && text[0] == '-' then TrimLeft(text[1..]) else text
  }

  function TrimRight(text: string): string {
    if text != [] && text[|text| - 1] == '-' then TrimRight(text[..|text| - 1]) else text
  }

  function GetMagnitudeOfAmount(amount: string): string {
    TrimRight(TrimLeft(amount))
  }

  /** The magnitude of a canonical amount, signed or not, is its unsigned decimal text. */
  lemma {:induction false} MagnitudeOfCanonical(n: nat)
    ensures GetMagnitudeOfAmount("-" + NatToDec(n)) == NatToDec(n)
    ensures GetMagnitudeOfAmount(NatToDec(n)) == NatToDec(n)
  {
    DecDigitsRoundTrip(n);
    var text := NatToDec(n);
    assert text[0] != '-' && text[|text| - 1] != '-';
    assert ("-" + text)[1..] == text;
    assert TrimLeft("-" + text) == TrimLeft(text) == text;
  }

  /** `amountToHex`: the sign is lost (`Bytes` is of the absolute value) and a malformed amount gives "". */
  function AmountToHex(amount: string): Bytes {
    match ParseDec(amount)
    case None => ""
    case Some(v) => EnsureEvenLengthOfHexString(HexEncode(NatToBytes(if v < 0 then -v else v)))
  }

  function HexToAmount(hexString: string): Option<string> {
    match HexDecode(hexString)
    case None => None
    case Some(bytes) => Some(NatToDec(BytesToNat(bytes)))
  }

  function StringToHex(value: Bytes): Bytes {
    EnsureEvenLengthOfHexString(HexEncode(value))
  }

  lemma {:induction false} AmountHexOfCanonical(n: nat)
    ensures AmountToHex(NatToDec(n)) == HexEncode(NatToBytes(n))
  {
    var bytes := NatToBytes(n);
    DecRoundTrip(n);
    assert |HexEncode(bytes)| % 2 == 0 by { HexText(bytes); }
  }

  /** Every natural amount, zero included, survives the trip through hex text,
      which never holds the argument separator. */
  lemma {:induction false} AmountHexRoundTrip(n: nat)
    ensures HexToAmount(AmountToHex(NatToDec(n))) == Some(NatToDec(n))
    ensures '@' !in AmountToHex(NatToDec(n))
  {
    var bytes := NatToBytes(n);
    AmountHexOfCanonical(n);
    HexText(bytes);
    HexRoundTrip(bytes);
    NatBytesRoundTrip(n);
  }

  // ---------------------------------------------------------------- hex text as a number

  /** The value of hexadecimal text, most significant digit first; None on a foreign character. */
  function HexTextToNat(text: string): Option<nat> {
    if text == [] then Some(0)
    else
      match (HexTextToNat(text[..|text| - 1]), HexValue(text[|text| - 1]))
      case (Some(n), Some(d)) => Some(16 * n + d)
      case _ => None
  }

  const TWO_TO_THE_64: nat := 0x1_0000_0000_0000_0000

  /** Sums that wrap on the way are the whole sum, wrapped once. */
  lemma {:induction false} WrapOnce(a: nat, b: nat)
    ensures (a % TWO_TO_THE_64 + b) % TWO_TO_THE_64 == (a + b) % TWO_TO_THE_64
  {
  }

  /** `strconv.ParseUint(text, 16, 64)` */
  function ParseUint64Hex(text: string): Option<nat> {
    if text == [] then None
    else
      match HexTextToNat(text)
      case Some(n) => if n < TWO_TO_THE_64 then Some(n) else None
      case None => None
  }

  lemma {:induction false} HexTextOneMore(text: string, n: nat, c: char, d: nat)
    requires HexTextToNat(text) == Some(n) && HexValue(c) == Some(d)
    ensures HexTextToNat(text + [c]) == Some(16 * n + d)
  {
    assert (text + [c])[..|text|] == text;
  }

  /** Reading the hex text of bytes as one number gives the big-endian value of the bytes. */
  lemma {:induction false} HexTextOfBytes(bytes: Bytes)
    ensures HexTextToNat(HexEncode(bytes)) == Some(BytesToNat(bytes))
  {
    if bytes != [] {
      var init, last := bytes[..|bytes| - 1], bytes[|bytes| - 1];
      HexTextOfBytes(init);
      HexTextOfLast(init, last);
      assert bytes == init + [last];
    }
  }

  lemma {:induction false} HexTextOfLast(init: Bytes, last: Byte)
    requires HexTextToNat(HexEncode(init)) == Some(BytesToNat(init))
    ensures HexTextToNat(HexEncode(init + [last])) == Some(256 * BytesToNat(init) + last as int)
  {
    hide HexTextToNat, HexEncode, BytesToNat, HexDigit, HexValue;
    var hi, lo := last as int / 16, last as int % 16;
    HexEncodeLast(init, last);
    HexDigitValue(hi);
    HexDigitValue(lo);
    HexTextOneMore(HexEncode(init), BytesToNat(init), HexDigit(hi), hi);
    HexTextOneMore(HexEncode(init) + [HexDigit(hi)], 16 * BytesToNat(init) + hi, HexDigit(lo), lo);
    assert HexEncode(init + [last]) == HexEncode(init) + [HexDigit(hi)] + [HexDigit(lo)];
  }

  lemma {:induction false} HexEncodeLast(init: Bytes, last: Byte)
    ensures HexEncode(init + [last])
         == HexEncode(init) + [HexDigit(last as int / 16), HexDigit(last as int % 16)]
  {
    if init == [] {
      assert init + [last] == [last];
    } else {
      assert (init + [last])[1..] == init[1..] + [last];
      HexEncodeLast(init[1..], last);
    }
  }

  lemma {:induction false} BytesToNatBound(bytes: Bytes)
    requires |bytes| <= 8
    ensures BytesToNat(bytes) < TWO_TO_THE_64
  {
    BytesToNatPow(bytes);
    assert Pow256(8) == TWO_TO_THE_64;
    Pow256Monotone(|bytes|, 8);
  }

  function Pow256(k: nat): nat {
    if k == 0 then 1 else 256 * Pow256(k - 1)
  }

  lemma {:induction false} Pow256Monotone(j: nat, k: nat)
    requires j <= k
    ensures Pow256(j) <= Pow256(k)
  {
    if j < k {
      Pow256Monotone(j, k - 1);
    }
  }

  lemma {:induction false} BytesToNatPow(bytes: Bytes)
    ensures BytesToNat(bytes) < Pow256(|bytes|)
  {
    if bytes != [] {
      BytesToNatPow(bytes[..|bytes| - 1]);
    }
  }

  // ---------------------------------------------------------------- separators

  /** `strings.Split` on a one-character separator */
  function Split(text: string, separator: char): (parts: seq<string>)
    ensures |parts| > 0
  {
    if text == [] then [""]
    else
      var rest := Split(text[1..], separator);
      if text[0] == separator then [""] + rest else [[text[0]] + rest[0]] + rest[1..]
  }

  function Count(text: string, c: char): nat {
    if text == [] then 0 else (if text[0] == c then 1 else 0) + Count(text[1..], c)
  }

  function Join(parts: seq<string>, separator: char): string
    requires |parts| > 0
  {
    if |parts| == 1 then parts[0] else parts[0] + [separator] + Join(parts[1..], separator)
  }

  /** Splitting cuts exactly at the separators: one part more than separators, none inside a part,
      and joining restores the text. */
  lemma {:induction false} SplitJoin(text: string, separator: char)
    ensures |Split(text, separator)| == Count(text, separator) + 1
    ensures forall i :: 0 <= i < |Split(text, separator)| ==> separator !in Split(text, separator)[i]
    ensures Join(Split(text, separator), separator) == text
  {
    if text != [] {
      SplitJoin(text[1..], separator);
      var rest := Split(text[1..], separator);
      assert text == [text[0]] + text[1..];
      if text[0] == separator {
        assert ([""] + rest)[1..] == rest;
      } else {
        var parts := [[text[0]] + rest[0]] + rest[1..];
        assert parts[1..] == rest[1..];
      }
    }
  }

  lemma {:induction false} SplitWithout(text: string, separator: char)
    requires separator !in text
    ensures Split(text, separator) == [text] && Count(text, separator) == 0
  {
    if text != [] {
      SplitWithout(text[1..], separator);
      assert text == [text[0]] + text[1..];
    }
  }

  lemma {:induction false} SplitFirst(head: string, separator: char, tail: string)
    requires separator !in head
    ensures Split(head + [separator] + tail, separator) == [head] + Split(tail, separator)
  {
    var text := head + [separator] + tail;
    if head == [] {
      assert text[1..] == tail;
    } else {
      assert text[1..] == head[1..] + [separator] + tail;
      SplitFirst(head[1..], separator, tail);
      assert head == [head[0]] + head[1..];
    }
  }

  lemma {:induction false} SplitThree(a: string, separator: char, b: string, c: string)
    requires separator !in a && separator !in b && separator !in c
    ensures Split(a + [separator] + b + [separator] + c, separator) == [a, b, c]
  {
    hide Split;
    assert a + [separator] + b + [separator] + c == a + [separator] + (b + [separator] + c);
    SplitFirst(a, separator, b + [separator] + c);
    SplitFirst(b, separator, c);
    SplitWithout(c, separator);
  }

  /** Appending a separator and separator-free text appends exactly one part. */
  lemma {:induction false} SplitLast(head: string, separator: char, tail: string)
    requires separator !in tail
    ensures Split(head + [separator] + tail, separator) == Split(head, separator) + [tail]
  {
    var text := head + [separator] + tail;
    if head == [] {
      assert text[1..] == tail;
      SplitWithout(tail, separator);
    } else {
      assert text[1..] == head[1..] + [separator] + tail;
      SplitLast(head[1..], separator, tail);
    }
  }

  // ---------------------------------------------------------------- the codecs, digit by digit

  /** Lower-case digits are written, both cases are read. */
  lemma {:induction false} HexDigitsExactly(c: char, d: int)
    requires 0 <= d < 16
    ensures HexDigit(d) == "0123456789abcdef"[d]
    ensures HexValue(c) == Some(d) <==> c == "0123456789abcdef"[d] || c == "0123456789ABCDEF"[d]
  {
  }

  /** Each byte gives two digits, the more significant one first. */
  lemma {:induction false} HexEncodeAt(bytes: Bytes, i: nat)
    requires i < |bytes|
    ensures |HexEncode(bytes)| == 2 * |bytes|
    ensures HexEncode(bytes)[2 * i] == HexDigit(bytes[i] as int / 16)
    ensures HexEncode(bytes)[2 * i + 1] == HexDigit(bytes[i] as int % 16)
  {
    HexText(bytes);
    if i > 0 {
      HexEncodeAt(bytes[1..], i - 1);
    }
  }

  /** Text is read exactly when its length is even and all its characters are digits. */
  lemma {:induction false} HexDecodeExactly(text: string)
    ensures HexDecode(text).Some? <==> |text| % 2 == 0 && forall i :: 0 <= i < |text| ==> HexValue(text[i]).Some?
  {
    if |text| >= 2 {
      HexDecodeExactly(text[2..]);
      if forall i :: 0 <= i < |text[2..]| ==> HexValue(text[2..][i]).Some? {
        forall i | 2 <= i < |text| ensures HexValue(text[i]).Some? {
          assert text[i] == text[2..][i - 2];
        }
      }
    }
  }

  /** Padding makes the length even and keeps the number. */
  lemma {:induction false} EvenLengthKeepsNumber(text: Bytes)
    ensures |EnsureEvenLengthOfHexString(text)| % 2 == 0
    ensures HexTextToNat(EnsureEvenLengthOfHexString(text)) == HexTextToNat(text)
  {
    LeadingZero(text);
  }

  lemma {:induction false} LeadingZero(text: Bytes)
    ensures HexTextToNat("0" + text) == HexTextToNat(text)
  {
    if text == [] {
      assert "0" + text == "0" && "0"[..0] == "";
    } else {
      LeadingZero(text[..|text| - 1]);
      assert ("0" + text)[..|"0" + text| - 1] == "0" + text[..|text| - 1];
    }
  }

  lemma {:induction false} Regroup(h: nat, p: nat, l: nat, k: nat)
    ensures k * (h * p + l) == h * (k * p) + k * l
  {
    assert k * (h * p) == h * (k * p);
  }

  /** Bytes are read most significant first. */
  lemma {:induction false} BytesToNatConcat(high: Bytes, low: Bytes)
    ensures BytesToNat(high + low) == BytesToNat(high) * Pow256(|low|) + BytesToNat(low)
  {
    if low == [] {
      assert high + low == high;
    } else {
      var n := |low| - 1;
      assert (high + low)[..|high + low| - 1] == high + low[..n];
      BytesToNatConcat(high, low[..n]);
      Regroup(BytesToNat(high), Pow256(n), BytesToNat(low[..n]), 256);
    }
  }

  lemma {:induction false} OneByte(b: Byte)
    ensures BytesToNat([b]) == b as int
  {
    var one := [b];
    assert one[..|one| - 1] == [];
  }

  function Pow10(k: nat): nat {
    if k == 0 then 1 else 10 * Pow10(k - 1)
  }

  /** Decimal digits are read most significant first. */
  lemma {:induction false} DecDigitsConcat(high: string, low: string)
    requires DecDigitsToNat(high).Some? && DecDigitsToNat(low).Some?
    ensures DecDigitsToNat(high + low) == Some(DecDigitsToNat(high).value * Pow10(|low|) + DecDigitsToNat(low).value)
  {
    if low == [] {
      assert high + low == high;
    } else {
      var n := |low| - 1;
      assert (high + low)[..|high + low| - 1] == high + low[..n];
      DecDigitsConcat(high, low[..n]);
      Regroup(DecDigitsToNat(high).value, Pow10(n), DecDigitsToNat(low[..n]).value, 10);
    }
  }

  lemma {:induction false} OneDigit(d: int)
    requires 0 <= d < 10
    ensures NatToDec(d) == ["0123456789"[d]] && DecDigitsToNat(["0123456789"[d]]) == Some(d)
  {
    var one := ["0123456789"[d]];
    assert one[..|one| - 1] == [];
  }

  lemma {:induction false} ZeroDigits(text: string)
    ensures DecDigitsToNat(text) == Some(0) <==> forall i :: 0 <= i < |text| ==> text[i] == '0'
  {
    if text != [] {
      var init := text[..|text| - 1];
      ZeroDigits(init);
      if forall i :: 0 <= i < |init| ==> init[i] == '0' {
        forall i | 0 <= i < |text| - 1 ensures text[i] == '0' {
          assert text[i] == init[i];
        }
      }
    }
  }

  /** No amount, or only zeros after an optional sign. */
  lemma {:induction false} ZeroAmountsExactly(amount: string)
    ensures IsZeroAmount(amount) <==>
              || amount == ""
              || (forall i :: 0 <= i < |amount| ==> amount[i] == '0')
              || (|amount| > 1 && (amount[0] == '-' || amount[0] == '+')
                  && forall i :: 1 <= i < |amount| ==> amount[i] == '0')
  {
    ZeroDigits(amount);
    if amount != "" {
      var rest := amount[1..];
      ZeroDigits(rest);
      if forall i :: 0 <= i < |rest| ==> rest[i] == '0' {
        forall i | 1 <= i < |amount| ensures amount[i] == '0' {
          assert amount[i] == rest[i - 1];
        }
      }
    }
  }

  lemma {:induction false} TrimLeftAt(text: string) returns (i: nat)
    ensures i <= |text| && TrimLeft(text) == text[i..]
    ensures forall k :: 0 <= k < i ==> text[k] == '-'
    ensures i < |text| ==> text[i] != '-'
  {
    i := 0;
    if text != [] && text[0] == '-' {
      var rest := TrimLeftAt(text[1..]);
      i := rest + 1;
      assert text[i..] == text[1..][rest..];
      forall k | 0 < k < i ensures text[k] == '-' {
        assert text[k] == text[1..][k - 1];
      }
    }
  }

  lemma {:induction false} TrimRightAt(text: string) returns (j: nat)
    ensures j <= |text| && TrimRight(text) == text[..j]
    ensures forall k :: j <= k < |text| ==> text[k] == '-'
    ensures j > 0 ==> text[j - 1] != '-'
  {
    j := |text|;
    if text != [] && text[|text| - 1] == '-' {
      j := TrimRightAt(text[..|text| - 1]);
      assert text[..j] == text[..|text| - 1][..j];
    }
  }

  /** The magnitude is the part of an amount between the dashes at its two ends, and has none at its own. */
  lemma {:induction false} MagnitudeExactly(amount: string) returns (i: nat, j: nat)
    ensures i <= j <= |amount| && GetMagnitudeOfAmount(amount) == amount[i..j]
    ensures forall k :: 0 <= k < i || j <= k < |amount| ==> amount[k] == '-'
    ensures i < j ==> amount[i] != '-' && amount[j - 1] != '-'
  {
    hide TrimLeft, TrimRight;
    i := TrimLeftAt(amount);
    var rest := amount[i..];
    var n := TrimRightAt(rest);
    j := i + n;
    assert rest[..n] == amount[i..j];
    forall k | j <= k < |amount| ensures amount[k] == '-' {
      assert amount[k] == rest[k - i];
    }
    if i < j {
      assert amount[j - 1] == rest[n - 1];
    }
  }

  /** The sign of an amount is lost, and what is no amount gives nothing. */
  lemma {:induction false} AmountHexOfOther(n: nat, text: string)
    ensures AmountToHex("-" + NatToDec(n)) == AmountToHex(NatToDec(n)) == HexEncode(NatToBytes(n))
    ensures ParseDec(text).None? ==> AmountToHex(text) == ""
  {
    AmountHexOfCanonical(n);
    DecRoundTrip(n);
    HexText(NatToBytes(n));
  }
}
