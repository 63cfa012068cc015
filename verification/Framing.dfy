/** Length-prefixed messages over a byte stream that arrives in arbitrary pieces. */
module Stream {
  import opened Bytes

  /** The receiving end of a connection: the bytes still to come before the peer closes it. */
  class Socket<T> {
    var incoming: seq<T>

    constructor (incoming: seq<T>)
      ensures this.incoming == incoming
    {
      this.incoming := incoming;
    }

    /** Some non-empty piece of at most n bytes, of any size the network likes; b'' at the end. */
    method Recv(n: nat) returns (piece: seq<T>)
      modifies this
      ensures |piece| <= n && old(incoming) == piece + incoming
      ensures piece == [] <==> n == 0 || old(incoming) == []
    {
      if n == 0 || incoming == [] {
        return [];
      }
      var most := Min(n, |incoming|);
      var k :| 1 <= k <= most;
      piece := incoming[..k];
      incoming := incoming[k..];
    }
  }

  /** Exactly n bytes, or None when the stream ends first; the rest of the stream. */
  function Take<T>(stream: seq<T>, n: nat): (Option<seq<T>>, seq<T>) {
    if n <= |stream| then (Some(stream[..n]), stream[n..]) else (None, [])
  }

  /** `_recv_exactly`, and each of the two loops of `recv_by_size`. */
  method RecvExactly<T>(sock: Socket<T>, n: nat) returns (data: Option<seq<T>>)
    modifies sock
    ensures (data, sock.incoming) == Take(old(sock.incoming), n)
  {
    var got: seq<T> := [];
    while |got| < n
      invariant |got| <= n
      invariant old(sock.incoming) == got + sock.incoming
      decreases n - |got|
    {
      var piece := sock.Recv(n - |got|);
      if piece == [] {
        return None;
      }
      got := got + piece;
    }
    return Some(got);
  }
}

/** Decimal numerals as ASCII bytes. */
module Decimal {
  import opened Bytes

  function DigitByte(d: nat): bv8
    requires d < 10
  {
    [48, 49, 50, 51, 52, 53, 54, 55, 56, 57][d]
  }

  predicate IsDigit(b: bv8) {
    48 <= b && b <= 57
  }

  function DigitValue(b: bv8): (d: nat)
    ensures d < 10
    ensures IsDigit(b) ==> DigitByte(d) == b
  {
    if b == 49 then 1 else if b == 50 then 2 else if b == 51 then 3 else if b == 52 then 4
    else if b == 53 then 5 else if b == 54 then 6 else if b == 55 then 7 else if b == 56 then 8
    else if b == 57 then 9 else 0
  }

  lemma DigitRoundTrip(d: nat)
    requires d < 10
    ensures IsDigit(DigitByte(d)) && DigitValue(DigitByte(d)) == d
  {}

  /** The decimal digits of n, the highest first. */
  function Digits(n: nat): (ds: seq<nat>)
    ensures |ds| >= 1 && forall i :: 0 <= i < |ds| ==> ds[i] < 10
  {
    if n < 10 then [n] else Digits(n / 10) + [n % 10]
  }

  function AsBytes(ds: seq<nat>): (r: Bytes)
    requires forall i :: 0 <= i < |ds| ==> ds[i] < 10
    ensures |r| == |ds| && forall i :: 0 <= i < |ds| ==> r[i] == DigitByte(ds[i])
  {
    seq(|ds|, i requires 0 <= i < |ds| => DigitByte(ds[i]))
  }

  /** str(n) */
  function Str(n: nat): (ds: Bytes)
    ensures |ds| == |Digits(n)|
  {
    AsBytes(Digits(n))
  }

  /** The number a string of digits denotes. */
  function Value(ds: Bytes): nat {
    if ds == [] then 0 else Value(ds[..|ds| - 1]) * 10 + DigitValue(ds[|ds| - 1])
  }

  predicate AllDigits(ds: Bytes) {
    forall i :: 0 <= i < |ds| ==> IsDigit(ds[i])
  }

  function Pow10(k: nat): (p: nat)
    ensures p >= 1
  {
    if k == 0 then 1 else 10 * Pow10(k - 1)
  }

  lemma ValueSnoc(ds: Bytes, d: nat)
    requires d < 10
    ensures Value(ds + [DigitByte(d)]) == Value(ds) * 10 + d
  {
    DigitRoundTrip(d);
    assert (ds + [DigitByte(d)])[..|ds|] == ds;
  }

  lemma StrIsDigits(n: nat)
    ensures AllDigits(Str(n))
  {
    forall i | 0 <= i < |Str(n)| ensures IsDigit(Str(n)[i]) {
      DigitRoundTrip(Digits(n)[i]);
    }
  }

  lemma {:induction false} BytesValue(ds: seq<nat>, n: nat)
    requires ds == Digits(n)
    ensures Value(AsBytes(ds)) == n
    decreases n
  {
    if n < 10 {
      ValueSnoc([], n);
      assert AsBytes(ds) == [] + [DigitByte(n)];
    } else {
      var init := Digits(n / 10);
      BytesValue(init, n / 10);
      ValueSnoc(AsBytes(init), n % 10);
      assert AsBytes(ds) == AsBytes(init) + [DigitByte(n % 10)];
    }
  }

  lemma StrIsValue(n: nat)
    ensures AllDigits(Str(n)) && Value(Str(n)) == n
  {
    StrIsDigits(n);
    BytesValue(Digits(n), n);
  }

  lemma TenfoldQuotient(n: nat, p: nat)
    requires p > 0
    ensures n / 10 / p == n / (10 * p)
  {
    var q := n / 10 / p;
    assert n / 10 == q * p + n / 10 % p;
    assert q * (10 * p) == 10 * (q * p);
    Quotient(n, 10 * p, q);
  }

  /** The digit of n that counts 10^i. */
  function Digit(n: nat, i: nat): (d: nat)
    ensures d < 10
  {
    n / Pow10(i) % 10
  }

  lemma DigitOfQuotient(n: nat, i: nat)
    requires i > 0
    ensures Digit(n, i) == Digit(n / 10, i - 1)
  {
    TenfoldQuotient(n, Pow10(i - 1));
  }

  /** It is the i-th from the right. */
  lemma {:induction false} DigitsAt(n: nat, i: nat)
    requires i < |Digits(n)|
    ensures Digits(n)[|Digits(n)| - 1 - i] == Digit(n, i)
  {
    if i == 0 {
      assert Digit(n, 0) == n % 10;
    } else {
      DigitsAt(n / 10, i - 1);
      DigitOfQuotient(n, i);
    }
  }

  lemma {:induction false} Pow10Grows(j: nat, k: nat)
    requires j <= k
    ensures Pow10(j) <= Pow10(k)
  {
    if j < k {
      Pow10Grows(j, k - 1);
    }
  }

  /** The same with leading zeros. */
  lemma PaddedDigit(n: nat, width: nat, i: nat)
    requires i < width && |Str(n)| <= width
    ensures ZFill(Str(n), width)[width - 1 - i] == DigitByte(Digit(n, i))
  {
    if i < |Str(n)| {
      DigitsAt(n, i);
    } else {
      StrLength(n, |Str(n)|);
      Pow10Grows(|Str(n)|, i);
      Quotient(n, Pow10(i), 0);
    }
  }

  /** k digits suffice exactly below 10^k. */
  lemma {:induction false} StrLength(n: nat, k: nat)
    requires k >= 1
    ensures |Str(n)| <= k <==> n < Pow10(k)
  {
    if n < 10 {
      assert Pow10(k) == 10 * Pow10(k - 1);
    } else if k == 1 {
      assert Pow10(1) == 10 * Pow10(0) && |Str(n)| == |Str(n / 10)| + 1;
    } else {
      StrLength(n / 10, k - 1);
    }
  }

  /** s.zfill(width) */
  function ZFill(ds: Bytes, width: nat): (r: Bytes)
    ensures |r| == if |ds| < width then width else |ds|
  {
    if |ds| < width then seq(width - |ds|, _ => DigitByte(0)) + ds else ds
  }

  lemma {:induction false} LeadingZeros(z: nat, ds: Bytes)
    requires AllDigits(ds)
    ensures AllDigits(seq(z, _ => DigitByte(0)) + ds)
    ensures Value(seq(z, _ => DigitByte(0)) + ds) == Value(ds)
    decreases z + |ds|
  {
    var padded := seq(z, _ => DigitByte(0)) + ds;
    DigitRoundTrip(0);
    if ds != [] {
      LeadingZeros(z, ds[..|ds| - 1]);
      assert padded[..|padded| - 1] == seq(z, _ => DigitByte(0)) + ds[..|ds| - 1];
    } else if z > 0 {
      LeadingZeros(z - 1, []);
      assert padded[..|padded| - 1] == seq(z - 1, _ => DigitByte(0)) + [];
    }
  }

  lemma {:induction false} ValueBound(ds: Bytes)
    ensures Value(ds) < Pow10(|ds|)
  {
    if ds != [] {
      ValueBound(ds[..|ds| - 1]);
    }
  }

  // ---- int(b) on a byte string --------------------------------------------------------------

  const PLUS: bv8 := 43
  const MINUS: bv8 := 45
  const UNDERSCORE: bv8 := 95

  predicate IsSpace(b: bv8) {
    b == 32 || (9 <= b && b <= 13)
  }

  function Strip(b: Bytes): Bytes {
    if b == [] then b
    else if IsSpace(b[0]) then Strip(b[1..])
    else if IsSpace(b[|b| - 1]) then Strip(b[..|b| - 1])
    else b
  }

  /** Digits, single underscores allowed between them. */
  predicate IsNumeral(b: Bytes) {
    && b != [] && IsDigit(b[0]) && IsDigit(b[|b| - 1])
    && (forall i :: 0 <= i < |b| ==> IsDigit(b[i]) || b[i] == UNDERSCORE)
    && forall i :: 0 <= i < |b| - 1 ==> IsDigit(b[i]) || IsDigit(b[i + 1])
  }

  function WithoutUnderscores(b: Bytes): Bytes {
    if b == [] then []
    else
      var rest, last := WithoutUnderscores(b[..|b| - 1]), b[|b| - 1];
      if last == UNDERSCORE then rest else rest + [last]
  }

  function Unsigned(b: Bytes): Option<int> {
    if IsNumeral(b) then Some(Value(WithoutUnderscores(b))) else None
  }

  /** Blanks around the number and a sign are allowed; None is a ValueError. */
  function PyInt(b: Bytes): Option<int> {
    var t := Strip(b);
    if t == [] then None
    else if t[0] == PLUS then Unsigned(t[1..])
    else if t[0] == MINUS then
      match Unsigned(t[1..])
      case None => None
      case Some(n) => Some(-n)
    else Unsigned(t)
  }

  lemma {:induction false} DigitsStay(ds: Bytes)
    requires AllDigits(ds)
    ensures WithoutUnderscores(ds) == ds
  {
    if ds != [] {
      DigitsStay(ds[..|ds| - 1]);
    }
  }

  lemma {:induction false} StripRight(b: Bytes, sp: bv8)
    requires IsSpace(sp)
    ensures Strip(b + [sp]) == Strip(b)
  {
    if b == [] {
      assert [sp][1..] == [];
    } else if IsSpace(b[0]) {
      StripRight(b[1..], sp);
      assert (b + [sp])[1..] == b[1..] + [sp];
    } else {
      assert (b + [sp])[..|b|] == b;
    }
  }

  /** Blanks on either side do not matter. */
  lemma IntWithBlanks(b: Bytes, sp: bv8)
    requires sp == 32 || (9 <= sp && sp <= 13)
    ensures PyInt([sp] + b) == PyInt(b) == PyInt(b + [sp])
  {
    StripRight(b, sp);
    assert ([sp] + b)[1..] == b;
  }

  lemma NothingToStrip(t: Bytes)
    requires t != [] && !IsSpace(t[0]) && !IsSpace(t[|t| - 1])
    ensures Strip(t) == t
  {}

  lemma IntOfNumeral(t: Bytes)
    requires IsNumeral(t)
    ensures PyInt(t) == Some(Value(WithoutUnderscores(t)))
  {
    NothingToStrip(t);
  }

  lemma NumeralOfDigits(ds: Bytes)
    requires ds != [] && AllDigits(ds)
    ensures IsNumeral(ds) && WithoutUnderscores(ds) == ds
  {
    assert IsDigit(ds[0]) && IsDigit(ds[|ds| - 1]);
    DigitsStay(ds);
  }

  lemma IntOfSigned(sign: bv8, u: Bytes)
    requires (sign == 43 || sign == 45) && IsNumeral(u)
    ensures var n := Value(WithoutUnderscores(u));
      PyInt([sign] + u) == Some(if sign == 45 then -(n as int) else n)
  {
    var t := [sign] + u;
    assert t[|t| - 1] == u[|u| - 1] && t[1..] == u;
    NothingToStrip(t);
  }

  /** A sign in front, single underscores between digits. */
  lemma IntWithSign(sign: bv8, ds: Bytes)
    requires (sign == 43 || sign == 45) && ds != [] && AllDigits(ds)
    ensures PyInt([sign] + ds) == Some(if sign == 45 then -(Value(ds) as int) else Value(ds))
  {
    NumeralOfDigits(ds);
    IntOfSigned(sign, ds);
  }

  lemma {:induction false} UnderscoreDrops(a: Bytes, b: Bytes)
    requires AllDigits(a) && AllDigits(b)
    ensures WithoutUnderscores(a + [95] + b) == a + b
  {
    if b == [] {
      DigitsStay(a);
      assert (a + [95] + b)[..|a|] == a;
    } else {
      UnderscoreDrops(a, b[..|b| - 1]);
      assert (a + [95] + b)[..|a| + |b|] == a + [95] + b[..|b| - 1];
    }
  }

  lemma GroupedNumeral(a: Bytes, b: Bytes)
    requires a != [] && b != [] && AllDigits(a) && AllDigits(b)
    ensures IsNumeral(a + [95] + b)
  {
    var t := a + [95] + b;
    forall i | 0 <= i < |t| ensures IsDigit(t[i]) || (i == |a| && t[i] == UNDERSCORE) {
      if i > |a| {
        assert t[i] == b[i - |a| - 1];
      } else if i < |a| {
        assert t[i] == a[i];
      }
    }
  }

  lemma IntWithUnderscore(a: Bytes, b: Bytes)
    requires a != [] && b != [] && AllDigits(a) && AllDigits(b)
    ensures PyInt(a + [95] + b) == Some(Value(a + b))
  {
    GroupedNumeral(a, b);
    IntOfNumeral(a + [95] + b);
    UnderscoreDrops(a, b);
  }

  lemma TwoUnderscoresRefused(a: Bytes, b: Bytes)
    requires a != [] && b != [] && AllDigits(a) && AllDigits(b)
    ensures PyInt(a + [95, 95] + b) == None
  {
    var t := a + [95, 95] + b;
    assert IsDigit(a[0]) && t[0] == a[0] && IsDigit(b[|b| - 1]) && t[|t| - 1] == b[|b| - 1];
    assert t[|a|] == UNDERSCORE && t[|a| + 1] == UNDERSCORE && !IsDigit(UNDERSCORE);
  }

  lemma {:induction false} StripKeeps(b: Bytes, i: nat)
    requires i < |b| && !IsSpace(b[i])
    ensures b[i] in Strip(b)
  {
    if IsSpace(b[0]) {
      StripKeeps(b[1..], i - 1);
    } else if IsSpace(b[|b| - 1]) {
      StripKeeps(b[..|b| - 1], i);
    }
  }

  lemma NotNumeral(t: Bytes, j: nat)
    requires j < |t| && !IsDigit(t[j]) && t[j] != UNDERSCORE
    ensures !IsNumeral(t)
  {}

  /** Any other character is a ValueError, and so is a header of blanks. */
  lemma IntRefuses(b: Bytes, i: nat)
    requires i < |b| && !(48 <= b[i] && b[i] <= 57) && b[i] != 95 && b[i] != 43 && b[i] != 45
    requires b[i] != 32 && !(9 <= b[i] && b[i] <= 13)
    ensures PyInt(b) == None
  {
    StripKeeps(b, i);
    var t := Strip(b);
    var j :| 0 <= j < |t| && t[j] == b[i];
    NotNumeral(t, j);
    if j > 0 {
      NotNumeral(t[1..], j - 1);
    }
  }

  /** A string of digits denotes its value. */
  lemma IntOfDigits(ds: Bytes)
    requires ds != [] && AllDigits(ds)
    ensures PyInt(ds) == Some(Value(ds))
  {
    NumeralOfDigits(ds);
    IntOfNumeral(ds);
  }
}

/** The 8-byte decimal header of `tcp_by_size.py`. */
module SizeFraming {
  import opened Bytes
  import opened Stream
  import opened Decimal

  const DIGITS: nat := 7
  const BAR: bv8 := 124

  function Header(len: nat): Bytes {
    ZFill(Str(len), DIGITS) + [BAR]
  }

  /** What `send_with_size` puts on the wire. */
  function Frame(payload: Bytes): Bytes {
    Header(|payload|) + payload
  }

  method SendWithSize(bdata: Bytes) returns (wire: Bytes)
    ensures wire == Frame(bdata)
  {
    var headerData := ZFill(Str(|bdata|), DIGITS) + [BAR];
    wire := headerData + bdata;
  }

  /** `recv_by_size` on a stream: b'' when it is cut inside the frame, ValueError when the header
      is not a number; a negative number reads nothing, and the delimiter is never looked at. */
  function Parse(stream: Bytes): (Result<Bytes>, Bytes) {
    match Take(stream, DIGITS + 1)
    case (None, rest) => (Ok([]), rest)
    case (Some(header), rest) =>
      match PyInt(header[..DIGITS])
      case None => (Raised(ValueError), rest)
      case Some(n) =>
        if n < 0 then (Ok([]), rest)
        else match Take(rest, n)
          case (None, rest') => (Ok([]), rest')
          case (Some(data), rest') => (Ok(data), rest')
  }

  method RecvBySize(sock: Socket<bv8>) returns (r: Result<Bytes>)
    modifies sock
    ensures (r, sock.incoming) == Parse(old(sock.incoming))
  {
    var sizeHeader := RecvExactly(sock, DIGITS + 1);
    if sizeHeader.None? {
      return Ok([]);
    }
    var dataLen := PyInt(sizeHeader.value[..DIGITS]);
    if dataLen.None? {
      return Raised(ValueError);
    }
    if dataLen.value < 0 {
      return Ok([]);
    }
    var data := RecvExactly(sock, dataLen.value);
    if data.None? {
      return Ok([]);
    }
    return Ok(data.value);
  }

  lemma HeaderIs(len: nat)
    requires len < Pow10(DIGITS)
    ensures |Header(len)| == DIGITS + 1
    ensures PyInt(Header(len)[..DIGITS]) == Some(len)
  {
    StrLength(len, DIGITS);
    StrIsValue(len);
    var ds := Str(len);
    LeadingZeros(DIGITS - |ds|, ds);
    assert ZFill(ds, DIGITS) == seq(DIGITS - |ds|, _ => DigitByte(0)) + ds;
    assert Header(len)[..DIGITS] == ZFill(ds, DIGITS);
    IntOfDigits(ZFill(ds, DIGITS));
  }

  lemma Regroup(a: Bytes, b: Bytes, c: Bytes)
    ensures a + b + c == a + (b + c)
  {}

  /** The frame byte by byte: seven decimal digits of the length, the highest first, a bar, the payload. */
  lemma FrameInFields(payload: Bytes)
    requires |payload| < Pow10(DIGITS)
    ensures |Frame(payload)| == 8 + |payload| && Frame(payload)[8..] == payload && Frame(payload)[7] == 124
    ensures forall i :: 0 <= i < 7 ==>
      Frame(payload)[6 - i] == [48, 49, 50, 51, 52, 53, 54, 55, 56, 57][|payload| / Pow10(i) % 10]
  {
    HeaderIs(|payload|);
    StrLength(|payload|, DIGITS);
    forall i | 0 <= i < 7
      ensures Frame(payload)[6 - i] == [48, 49, 50, 51, 52, 53, 54, 55, 56, 57][|payload| / Pow10(i) % 10]
    {
      PaddedDigit(|payload|, DIGITS, i);
    }
  }

  lemma ParseParts(header: Bytes, payload: Bytes, rest: Bytes)
    requires |header| == DIGITS + 1 && PyInt(header[..DIGITS]) == Some(|payload|)
    ensures Parse(header + (payload + rest)) == (Ok(payload), rest)
  {
    var stream := header + (payload + rest);
    assert stream[..DIGITS + 1] == header && stream[DIGITS + 1..] == payload + rest;
  }

  /** A frame followed by anything parses to its payload and leaves exactly what follows. */
  lemma ParseFrame(payload: Bytes, rest: Bytes)
    requires |payload| < Pow10(DIGITS)
    ensures Parse(Frame(payload) + rest) == (Ok(payload), rest)
  {
    HeaderIs(|payload|);
    ParseParts(Header(|payload|), payload, rest);
    Regroup(Header(|payload|), payload, rest);
  }

  /** From 10^7 bytes on the header overflows its field and the payload never comes back. */
  lemma ParseOverlong(payload: Bytes, rest: Bytes)
    requires |payload| >= Pow10(DIGITS)
    ensures Parse(Frame(payload) + rest).0 != Ok(payload)
  {
    var ds, stream := Str(|payload|), Frame(payload) + rest;
    StrLength(|payload|, DIGITS);
    StrIsValue(|payload|);
    assert stream[..DIGITS + 1] == ds[..DIGITS + 1];
    var lead := ds[..DIGITS];
    assert stream[..DIGITS + 1][..DIGITS] == lead;
    IntOfDigits(lead);
    ValueBound(lead);
  }

  /** Main result: a payload survives the wire exactly when it is shorter than 10^7 bytes. */
  lemma FrameSurvives(payload: Bytes, rest: Bytes)
    ensures Parse(Frame(payload) + rest).0 == Ok(payload) <==> |payload| < 10000000
  {
    assert Pow10(7) == 10000000 by {
      assert Pow10(2) == 100 && Pow10(4) == 10000;
      assert Pow10(5) == 100000 && Pow10(6) == 1000000;
    }
    if |payload| < 10000000 {
      ParseFrame(payload, rest);
    } else {
      ParseOverlong(payload, rest);
    }
  }

  /** A stream cut anywhere inside a frame yields the empty result, never a shorter payload. */
  lemma ParseCut(payload: Bytes, k: nat)
    requires |payload| < Pow10(DIGITS) && k < |Frame(payload)|
    ensures Parse(Frame(payload)[..k]) == (Ok([]), [])
  {
    HeaderIs(|payload|);
    var cut := Frame(payload)[..k];
    if k >= DIGITS + 1 {
      assert cut[..DIGITS + 1] == Header(|payload|);
      assert Header(|payload|)[..DIGITS] == cut[..DIGITS + 1][..DIGITS];
    }
  }

  function Frames(payloads: seq<Bytes>): Bytes {
    if payloads == [] then [] else Frame(payloads[0]) + Frames(payloads[1..])
  }

  /** `count` calls of `recv_by_size` one after the other. */
  function ParseMany(stream: Bytes, count: nat): (seq<Result<Bytes>>, Bytes)
    decreases count
  {
    if count == 0 then ([], stream)
    else
      var (first, rest) := Parse(stream);
      var (others, end) := ParseMany(rest, count - 1);
      ([first] + others, end)
  }

  /** Main result: with `RecvBySize` independent of the segmentation, reading as many messages as
      were sent gives exactly the payloads in order and leaves exactly what follows. */
  lemma {:induction false} FramesSurvive(payloads: seq<Bytes>, rest: Bytes)
    requires forall i :: 0 <= i < |payloads| ==> |payloads[i]| < Pow10(DIGITS)
    ensures var (got, end) := ParseMany(Frames(payloads) + rest, |payloads|);
      && end == rest && |got| == |payloads|
      && forall i :: 0 <= i < |got| ==> got[i] == Ok(payloads[i])
  {
    if payloads == [] {
      assert Frames(payloads) + rest == rest;
    } else {
      var after := Frames(payloads[1..]) + rest;
      assert Frames(payloads) + rest == Frame(payloads[0]) + after;
      ParseFrame(payloads[0], after);
      FramesSurvive(payloads[1..], rest);
    }
  }

  lemma {:induction false} ParseOneMore(stream: Bytes, count: nat)
    ensures var (got, end) := ParseMany(stream, count);
      ParseMany(stream, count + 1) == (got + [Parse(end).0], Parse(end).1)
    decreases count
  {
    var (first, rest) := Parse(stream);
    if count == 0 {
      assert ParseMany(rest, 0) == ([], rest) && [first] + [] == [] + [first];
    } else {
      var (others, end) := ParseMany(rest, count - 1);
      ParseOneMore(rest, count - 1);
      assert [first] + (others + [Parse(end).0]) == [first] + others + [Parse(end).0];
    }
  }

  /** Main result: whole frames followed by one cut anywhere give those payloads, then the empty
      result, and the stream is used up. */
  lemma FramesThenCut(payloads: seq<Bytes>, last: Bytes, k: nat)
    requires forall i :: 0 <= i < |payloads| ==> |payloads[i]| < Pow10(DIGITS)
    requires |last| < Pow10(DIGITS) && k < |Frame(last)|
    ensures var (got, end) := ParseMany(Frames(payloads) + Frame(last)[..k], |payloads| + 1);
      && end == [] && |got| == |payloads| + 1
      && (forall i :: 0 <= i < |payloads| ==> got[i] == Ok(payloads[i]))
      && got[|payloads|] == Ok([])
  {
    ParseCut(last, k);
    FramesSurvive(payloads, Frame(last)[..k]);
    ParseOneMore(Frames(payloads) + Frame(last)[..k], |payloads|);
  }
}

/** The 4-byte big-endian length of `p2p.py`, with bytes as numbers. JSON is a parameter. */
module BigEndianFraming {
  import opened Bytes
  import opened Stream

  type Octet = x: nat | x < 0x100

  const LIMIT: nat := 0x1_0000_0000

  /** struct.pack(">I", n); struct.error from 2^32 on. */
  function Pack(n: nat): (r: Result<seq<Octet>>)
    ensures r.Ok? <==> n < LIMIT
    ensures r.Ok? ==> |r.value| == 4
  {
    if n >= LIMIT then Raised(StructError)
    else Ok([n / 0x100_0000, n / 0x1_0000 % 0x100, n / 0x100 % 0x100, n % 0x100])
  }

  /** struct.unpack(">I", b) */
  function Unpack(b: seq<Octet>): nat
    requires |b| == 4
  {
    var w: nat, x: nat, y: nat, z: nat := b[0], b[1], b[2], b[3];
    ((w * 0x100 + x) * 0x100 + y) * 0x100 + z
  }

  lemma UnpackPack(n: nat)
    requires n < LIMIT
    ensures Unpack(Pack(n).value) == n
  {
    assert n / 0x100 / 0x100 == n / 0x1_0000 && n / 0x1_0000 / 0x100 == n / 0x100_0000;
  }

  /** What `json.loads` after `decode("utf-8")` makes of a body. */
  datatype Loaded<+M> = Loaded(message: M) | BadJson | BadUtf8

  datatype Json<!M> = Json(dumps: M -> seq<Octet>, loads: seq<Octet> -> Loaded<M>)

  /** What is used of JSON: loading undoes dumping. */
  ghost predicate Lawful<M(!new)>(json: Json<M>) {
    forall m :: json.loads(json.dumps(m)) == Loaded(m)
  }

  function Frame(raw: seq<Octet>): Result<seq<Octet>> {
    match Pack(|raw|)
    case Raised(e) => Raised(e)
    case Ok(len) => Ok(len + raw)
  }

  /** `encode_message` */
  function Encode<M>(json: Json<M>, m: M): Result<seq<Octet>> {
    Frame(json.dumps(m))
  }

  /** The body of the next frame; None when the stream is cut. */
  function Body(stream: seq<Octet>): (Option<seq<Octet>>, seq<Octet>) {
    match Take(stream, 4)
    case (None, rest) => (None, rest)
    case (Some(len), rest) => Take(rest, Unpack(len))
  }

  /** `decode_message`: None when the stream is cut or the body is not JSON. A body that is not
      UTF-8 raises, UnicodeDecodeError being a ValueError that is not caught. */
  function Parse<M>(json: Json<M>, stream: seq<Octet>): (Result<Option<M>>, seq<Octet>) {
    match Body(stream)
    case (None, rest) => (Ok(None), rest)
    case (Some(body), rest) =>
      match json.loads(body)
      case Loaded(m) => (Ok(Some(m)), rest)
      case BadJson => (Ok(None), rest)
      case BadUtf8 => (Raised(ValueError), rest)
  }

  method EncodeMessage<M>(json: Json<M>, msg: M) returns (r: Result<seq<Octet>>)
    ensures r == Encode(json, msg)
  {
    var raw := json.dumps(msg);
    var len := Pack(|raw|);
    if len.Raised? {
      return Raised(len.error);
    }
    return Ok(len.value + raw);
  }

  method DecodeMessage<M>(json: Json<M>, sock: Socket<Octet>) returns (r: Result<Option<M>>)
    modifies sock
    ensures (r, sock.incoming) == Parse(json, old(sock.incoming))
  {
    var rawLen := RecvExactly(sock, 4);
    if rawLen.None? {
      return Ok(None);
    }
    var length := Unpack(rawLen.value);
    var rawBody := RecvExactly(sock, length);
    if rawBody.None? {
      return Ok(None);
    }
    match json.loads(rawBody.value) {
      case Loaded(m) => return Ok(Some(m));
      case BadJson => return Ok(None);
      case BadUtf8 => return Raised(ValueError);
    }
  }

  /** The first of the four length bytes is the most significant, for the sender ... */
  lemma FrameInFields(raw: seq<Octet>)
    requires |raw| < LIMIT
    ensures var wire := Frame(raw).value;
      && |wire| == 4 + |raw| && wire[4..] == raw
      && var a: nat, b: nat, c: nat, d: nat := wire[0], wire[1], wire[2], wire[3];
         a * 0x100_0000 + b * 0x1_0000 + c * 0x100 + d == |raw|
  {
    UnpackPack(|raw|);
  }

  /** ... and for the receiver. */
  lemma BodyInFields(a: nat, b: nat, c: nat, d: nat, stream: seq<Octet>)
    requires a < 0x100 && b < 0x100 && c < 0x100 && d < 0x100
    ensures var n := a * 0x100_0000 + b * 0x1_0000 + c * 0x100 + d;
      Body([a, b, c, d] + stream) == if n <= |stream| then (Some(stream[..n]), stream[n..]) else (None, [])
  {
    assert ([a, b, c, d] + stream)[..4] == [a, b, c, d] && ([a, b, c, d] + stream)[4..] == stream;
  }

  lemma FrameBody(raw: seq<Octet>, rest: seq<Octet>)
    requires |raw| < LIMIT
    ensures Body(Frame(raw).value + rest) == (Some(raw), rest)
  {
    UnpackPack(|raw|);
    var len, stream := Pack(|raw|).value, Frame(raw).value + rest;
    assert stream[..4] == len && stream[4..] == raw + rest;
  }

  lemma CutBody(raw: seq<Octet>, k: nat)
    requires |raw| < LIMIT && k < |Frame(raw).value|
    ensures Body(Frame(raw).value[..k]) == (None, [])
  {
    UnpackPack(|raw|);
    var wire := Frame(raw).value;
    if 4 <= k {
      assert wire[..k][..4] == Pack(|raw|).value;
    }
  }

  /** Main result: every message whose JSON text is below 2^32 bytes comes back and nothing more is
      consumed; longer ones are refused by the sender; a cut frame gives None. */
  lemma MessageSurvives<M(!new)>(json: Json<M>, m: M, rest: seq<Octet>, k: nat)
    requires Lawful(json)
    ensures Encode(json, m).Ok? <==> |json.dumps(m)| < LIMIT
    ensures Encode(json, m).Ok? ==> Parse(json, Encode(json, m).value + rest) == (Ok(Some(m)), rest)
    ensures Encode(json, m).Ok? && k < |Encode(json, m).value| ==>
      Parse(json, Encode(json, m).value[..k]) == (Ok(None), [])
  {
    var raw := json.dumps(m);
    if |raw| < LIMIT {
      FrameBody(raw, rest);
      if k < |Frame(raw).value| {
        CutBody(raw, k);
      }
    }
  }

  function Frames<M>(json: Json<M>, messages: seq<M>): seq<Octet>
    requires forall i :: 0 <= i < |messages| ==> Encode(json, messages[i]).Ok?
  {
    if messages == [] then [] else Encode(json, messages[0]).value + Frames(json, messages[1..])
  }

  /** `count` calls of `decode_message` one after the other. */
  function ParseMany<M>(json: Json<M>, stream: seq<Octet>, count: nat): (seq<Result<Option<M>>>, seq<Octet>)
    decreases count
  {
    if count == 0 then ([], stream)
    else
      var (first, rest) := Parse(json, stream);
      var (others, end) := ParseMany(json, rest, count - 1);
      ([first] + others, end)
  }

  lemma {:induction false} MessagesSurvive<M(!new)>(json: Json<M>, messages: seq<M>, rest: seq<Octet>)
    requires Lawful(json) && forall i :: 0 <= i < |messages| ==> Encode(json, messages[i]).Ok?
    ensures var (got, end) := ParseMany(json, Frames(json, messages) + rest, |messages|);
      && end == rest && |got| == |messages|
      && forall i :: 0 <= i < |got| ==> got[i] == Ok(Some(messages[i]))
  {
    if messages == [] {
      assert Frames(json, messages) + rest == rest;
    } else {
      var after := Frames(json, messages[1..]) + rest;
      assert Frames(json, messages) + rest == Encode(json, messages[0]).value + after;
      MessageSurvives(json, messages[0], after, 0);
      MessagesSurvive(json, messages[1..], rest);
    }
  }

  lemma {:induction false} ParseOneMore<M>(json: Json<M>, stream: seq<Octet>, count: nat)
    ensures var (got, end) := ParseMany(json, stream, count);
      ParseMany(json, stream, count + 1) == (got + [Parse(json, end).0], Parse(json, end).1)
    decreases count
  {
    var (first, rest) := Parse(json, stream);
    if count == 0 {
      assert ParseMany(json, rest, 0) == ([], rest) && [first] + [] == [] + [first];
    } else {
      var (others, end) := ParseMany(json, rest, count - 1);
      ParseOneMore(json, rest, count - 1);
      assert [first] + (others + [Parse(json, end).0]) == [first] + others + [Parse(json, end).0];
    }
  }

  /** Main result: whole messages followed by one cut anywhere give those messages, then None. */
  lemma MessagesThenCut<M(!new)>(json: Json<M>, messages: seq<M>, last: M, k: nat)
    requires Lawful(json) && forall i :: 0 <= i < |messages| ==> Encode(json, messages[i]).Ok?
    requires Encode(json, last).Ok? && k < |Encode(json, last).value|
    ensures var (got, end) := ParseMany(json, Frames(json, messages) + Encode(json, last).value[..k], |messages| + 1);
      && end == [] && |got| == |messages| + 1
      && (forall i :: 0 <= i < |messages| ==> got[i] == Ok(Some(messages[i])))
      && got[|messages|] == Ok(None)
  {
    var cut := Encode(json, last).value[..k];
    MessageSurvives(json, last, [], k);
    MessagesSurvive(json, messages, cut);
    ParseOneMore(json, Frames(json, messages) + cut, |messages|);
  }
}
