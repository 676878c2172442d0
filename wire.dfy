/*
 * The wire format of play0mq.
 *
 * A message is a pair (identifier, value). pack_and_send formats it with
 * sprintf("%s %ld") into a 1024-byte static buffer and sends the resulting
 * C string together with its terminating NUL as one frame; recv_and_unpack
 * reads a frame back with sscanf("%s %ld") into a second 1024-byte static
 * buffer. This module models the formatting and the scanning as functions
 * over strings; the buffers themselves belong to Roles.Process.
 */
module Wire {

  datatype Option<+T> = None | Some(value: T)

  const LONG_MIN: int := -0x8000_0000_0000_0000
  const LONG_MAX: int := 0x7FFF_FFFF_FFFF_FFFF

  /** A C `long` on an LP64 platform. */
  type Long = x: int | LONG_MIN <= x <= LONG_MAX

  /** The size of each of the two static buffers. */
  const BUFFER_SIZE: nat := 1024

  const NUL: char := '\0'

  /** isspace in the C locale: blank, \t, \n, \v, \f and \r. */
  predicate IsSpace(c: char) {
    c == ' ' || '\t' <= c <= '\r'
  }

  predicate IsDigit(c: char) {
    '0' <= c <= '9'
  }

  predicate AllDigits(s: string) {
    forall i :: 0 <= i < |s| ==> IsDigit(s[i])
  }

  // ---------------------------------------------------------------------------
  // Decimal notation, as printf's %ld writes it and scanf's %ld reads it
  // ---------------------------------------------------------------------------

  function DigitChar(d: nat): (c: char)
    requires d < 10
    ensures IsDigit(c) && c as int - '0' as int == d
  {
    ('0' as int + d) as char
  }

  /** The decimal digits of n, most significant first, with no leading zero. */
  function Decimal(n: nat): (s: string)
    ensures 1 <= |s| && AllDigits(s)
    ensures s[0] == '0' <==> n == 0
    decreases n
  {
    if n < 10 then [DigitChar(n)] else Decimal(n / 10) + [DigitChar(n % 10)]
  }

  /** The number a run of decimal digits denotes. */
  function DigitsValue(s: string): nat
    requires AllDigits(s)
  {
    if s == [] then 0
    else 10 * DigitsValue(s[..|s| - 1]) + (s[|s| - 1] as int - '0' as int)
  }

  /** Reading back the digits of n gives n. */
  lemma {:induction false} DigitsValueOfDecimal(n: nat)
    ensures DigitsValue(Decimal(n)) == n
    decreases n
  {
    var s := Decimal(n);
    if n >= 10 {
      assert s[..|s| - 1] == Decimal(n / 10);
      DigitsValueOfDecimal(n / 10);
    }
  }

  function Pow10(k: nat): (p: nat)
    ensures p >= 1
  {
    if k == 0 then 1 else 10 * Pow10(k - 1)
  }

  /** A number below 10^k has at most k digits. */
  lemma {:induction false} DecimalLength(n: nat, k: nat)
    requires 1 <= k && n < Pow10(k)
    ensures |Decimal(n)| <= k
    decreases k
  {
    if n >= 10 {
      assert Pow10(1) == 10;
      assert n / 10 < Pow10(k - 1);
      DecimalLength(n / 10, k - 1);
    }
  }

  /** printf's %ld conversion: a minus sign for a negative value, then the digits. */
  function FormatLong(v: int): (s: string)
    ensures 1 <= |s| && (s[0] == '-' <==> v < 0)
    ensures forall i :: (if v < 0 then 1 else 0) <= i < |s| ==> IsDigit(s[i])
  {
    if v < 0 then "-" + Decimal(-v) else Decimal(v)
  }

  /** No long needs more than 20 characters: a sign and 19 digits. */
  lemma FormatLongLength(v: Long)
    ensures |FormatLong(v)| <= 20
  {
    assert Pow10(5) == 100_000;
    assert Pow10(10) == 10_000_000_000;
    assert Pow10(15) == 1_000_000_000_000_000;
    assert Pow10(19) == 10_000_000_000_000_000_000;
    var w: int := v;
    var magnitude: nat := if w < 0 then -w else w;
    DecimalLength(magnitude, 19);
  }

  // ---------------------------------------------------------------------------
  // Encoding: pack_and_send
  // ---------------------------------------------------------------------------

  /** The text sprintf(buffer, "%s %ld", identifier, value) writes. */
  function Text(identifier: string, value: int): string {
    identifier + " " + FormatLong(value)
  }

  /** The text and its terminating NUL fit in the 1024-byte static buffer. */
  predicate Fits(identifier: string, value: int) {
    |Text(identifier, value)| < BUFFER_SIZE
  }

  /** Every identifier the programs themselves send fits with any long value. */
  lemma ShortIdentifierFits(identifier: string, value: Long)
    requires |identifier| <= 1000
    ensures Fits(identifier, value)
  {
    FormatLongLength(value);
  }

  /**
   * The frame pack_and_send hands to the transport: the formatted text and
   * its NUL, strlen(buffer) + 1 bytes in all.
   */
  function Encode(identifier: string, value: Long): (frame: seq<char>)
    requires NUL !in identifier && Fits(identifier, value)
    ensures |frame| == |identifier| + 1 + |FormatLong(value)| + 1 <= BUFFER_SIZE
    ensures frame[|frame| - 1] == NUL && NUL !in frame[..|frame| - 1]
    ensures frame[..|identifier|] == identifier && frame[|identifier|] == ' '
    ensures frame[|identifier| + 1..|frame| - 1] == FormatLong(value)
  {
    var text := Text(identifier, value);
    assert text[..|identifier|] == identifier;
    assert NUL !in text by {
      forall i | 0 <= i < |text| ensures text[i] != NUL {
        if i > |identifier| {
          assert text[i] == FormatLong(value)[i - |identifier| - 1];
        }
      }
    }
    assert (text + [NUL])[..|text|] == text;
    text + [NUL]
  }

  // ---------------------------------------------------------------------------
  // Decoding: the sscanf in recv_and_unpack
  // ---------------------------------------------------------------------------

  /** The C string at the start of a frame: everything before its first NUL. */
  function CStr(frame: seq<char>): (s: string)
    requires NUL in frame
    ensures |s| < |frame| && frame[..|s|] == s && frame[|s|] == NUL && NUL !in s
  {
    if frame[0] == NUL then [] else [frame[0]] + CStr(frame[1..])
  }

  /** The C string of a text followed by a NUL is that text, whatever comes after. */
  lemma CStrOfTerminated(text: string, rest: seq<char>)
    requires NUL !in text
    ensures CStr(text + [NUL] + rest) == text
  {
    var f := text + [NUL] + rest;
    var s := CStr(f);
    assert f[..|text|] == text && f[|text|] == NUL;
    assert forall k :: 0 <= k < |text| ==> f[k] != NUL;
  }

  /** The character classes the scanner skips over. */
  datatype CharClass = Space | NonSpace | Digit

  predicate InClass(cls: CharClass, c: char) {
    match cls
    case Space => IsSpace(c)
    case NonSpace => !IsSpace(c)
    case Digit => IsDigit(c)
  }

  /** The first index at or after i whose character is not of class cls. */
  function Span(cls: CharClass, s: string, i: nat): (j: nat)
    requires i <= |s|
    ensures i <= j <= |s|
    ensures forall k :: i <= k < j ==> InClass(cls, s[k])
    ensures j < |s| ==> !InClass(cls, s[j])
    decreases |s| - i
  {
    if i < |s| && InClass(cls, s[i]) then Span(cls, s, i + 1) else i
  }

  /** A span is determined by where its run of characters of the class ends. */
  lemma SpanIs(cls: CharClass, s: string, i: nat, j: nat)
    requires i <= j <= |s|
    requires forall k :: i <= k < j ==> InClass(cls, s[k])
    requires j < |s| ==> !InClass(cls, s[j])
    ensures Span(cls, s, i) == j
  {
  }

  function SkipSpace(s: string, i: nat): (j: nat)
    requires i <= |s|
  {
    Span(Space, s, i)
  }

  function SkipToken(s: string, i: nat): (j: nat)
    requires i <= |s|
  {
    Span(NonSpace, s, i)
  }

  function SkipDigits(s: string, i: nat): (j: nat)
    requires i <= |s|
  {
    Span(Digit, s, i)
  }

  /**
   * glibc stores LONG_MAX or LONG_MIN when the digits of a %ld conversion
   * denote a number outside the range of long.
   */
  function Clamp(x: int): Long {
    if x < LONG_MIN then LONG_MIN else if x > LONG_MAX then LONG_MAX else x
  }

  /**
   * The %ld conversion at index i (white space already skipped): an optional
   * sign and at least one digit; None is a matching failure.
   */
  function ScanLong(s: string, i: nat): (r: Option<Long>)
    requires i <= |s|
  {
    var signed := i < |s| && (s[i] == '-' || s[i] == '+');
    var start := if signed then i + 1 else i;
    var end := SkipDigits(s, start);
    if end == start then None
    else
      var magnitude: int := DigitsValue(s[start..end]);
      Some(Clamp(if signed && s[i] == '-' then -magnitude else magnitude))
  }

  /** The outcome of sscanf(s, "%s %ld", buffer, &value). */
  datatype Scan =
    | NoInput                                // nothing but white space: EOF, nothing stored
    | TokenOnly(token: string)               // one conversion: only the buffer is written
    | TokenAndLong(token: string, value: Long) // both conversions

  /**
   * sscanf(s, "%s %ld", buffer, &value) on a C string s: %s skips white space
   * and takes the longest run of non-space characters, the blank directive
   * and %ld skip white space again, and %ld reads an optional sign and digits.
   */
  function ScanTokenLong(s: string): (r: Scan)
    ensures r.NoInput? <==> forall k :: 0 <= k < |s| ==> IsSpace(s[k])
    ensures !r.NoInput? ==> r.token != [] && forall k :: 0 <= k < |r.token| ==> !IsSpace(r.token[k])
    ensures !r.NoInput? && NUL !in s ==> NUL !in r.token
  {
    var i := SkipSpace(s, 0);
    if i == |s| then NoInput
    else
      var j := SkipToken(s, i);
      var token := s[i..j];
      assert NUL !in s ==> NUL !in token by {
        assert forall k :: 0 <= k < |token| ==> token[k] == s[i + k];
      }
      match ScanLong(s, SkipSpace(s, j))
      case None => TokenOnly(token)
      case Some(v) => TokenAndLong(token, v)
  }

  /** What the receiving side reads from a frame. */
  function Decode(frame: seq<char>): (r: Scan)
    requires NUL in frame
    ensures !r.NoInput? ==> r.token != [] && NUL !in r.token
  {
    ScanTokenLong(CStr(frame))
  }

  /** An identifier that survives the trip: a non-empty token of non-space, non-NUL characters. */
  predicate ValidIdentifier(identifier: string) {
    identifier != [] && forall i :: 0 <= i < |identifier| ==> !IsSpace(identifier[i]) && identifier[i] != NUL
  }

  /** %ld reads back what %ld wrote, for every long, zero and negative values included. */
  lemma ScanFormatLong(prefix: string, value: Long)
    ensures ScanLong(prefix + FormatLong(value), |prefix|) == Some(value)
  {
    var w: int := value;
    var f := FormatLong(w);
    var s := prefix + f;
    var digits: nat := if w < 0 then -w else w;
    var start := if w < 0 then |prefix| + 1 else |prefix|;
    assert s[start..] == Decimal(digits);
    assert s[|prefix|] == f[0];
    assert w >= 0 ==> IsDigit(s[|prefix|]);
    SpanIs(Digit, s, start, |s|);
    assert s[start..SkipDigits(s, start)] == Decimal(digits);
    DigitsValueOfDecimal(digits);
  }

  /** sscanf's %s takes the identifier out of the text, ending at the blank. */
  lemma ScanIdentifier(identifier: string, value: Long)
    requires ValidIdentifier(identifier)
    ensures SkipSpace(Text(identifier, value), 0) == 0
    ensures SkipToken(Text(identifier, value), 0) == |identifier|
    ensures Text(identifier, value)[..|identifier|] == identifier
    ensures SkipSpace(Text(identifier, value), |identifier|) == |identifier| + 1
  {
    var text := Text(identifier, value);
    var n := |identifier|;
    assert text[n] == ' ';
    assert text[..n] == identifier;
    assert forall k :: 0 <= k < n ==> text[k] == identifier[k];
    SpanIs(Space, text, 0, 0);
    SpanIs(NonSpace, text, 0, n);
    assert text[n + 1] == FormatLong(value)[0];
    SpanIs(Space, text, n, n + 1);
  }

  /** sscanf(text, "%s %ld") reads back both conversions of the text sprintf wrote. */
  lemma ScanText(identifier: string, value: Long)
    requires ValidIdentifier(identifier)
    ensures ScanTokenLong(Text(identifier, value)) == TokenAndLong(identifier, value)
  {
    ScanIdentifier(identifier, value);
    assert Text(identifier, value) == (identifier + " ") + FormatLong(value);
    ScanFormatLong(identifier + " ", value);
  }

  /**
   * The round trip: decoding an encoded pair gives back the identifier and
   * the value, for every long (zero and negative values included).
   */
  lemma RoundTrip(identifier: string, value: Long)
    requires ValidIdentifier(identifier) && Fits(identifier, value)
    ensures Decode(Encode(identifier, value)) == TokenAndLong(identifier, value)
  {
    var text := Text(identifier, value);
    assert Encode(identifier, value) == text + [NUL] + [];
    CStrOfTerminated(text, []);
    ScanText(identifier, value);
  }

  /** A frame recv_and_unpack can scan without overflowing: it holds a NUL, and its token, if any, fits the 1024-byte static buffer. */
  predicate Receivable(frame: seq<char>) {
    NUL in frame &&
    match Decode(frame)
    case NoInput => true
    case TokenOnly(t) => |t| < BUFFER_SIZE
    case TokenAndLong(t, _) => |t| < BUFFER_SIZE
  }

  // ---------------------------------------------------------------------------
  // recv_and_unpack
  // ---------------------------------------------------------------------------

  /**
   * What recv_and_unpack leaves in *identifier and *value: None for the NULL
   * pointer of a failed receive (zmq_msg_recv returned -1); otherwise a copy
   * of the static buffer, which still holds `stale` when sscanf stored no
   * token, and the long sscanf stored, or `prior` (what *value held) when it
   * stored none.
   */
  function Unpack(frame: Option<seq<char>>, stale: string, prior: Long): (r: (Option<string>, Long))
    requires frame.Some? ==> NUL in frame.value
    ensures r.0.None? <==> frame.None?
    ensures frame.None? ==> r.1 == 0
  {
    (UnpackedIdentifier(frame, stale), UnpackedValue(frame, prior))
  }

  /** *identifier after recv_and_unpack. */
  function UnpackedIdentifier(frame: Option<seq<char>>, stale: string): Option<string>
    requires frame.Some? ==> NUL in frame.value
  {
    match frame
    case None => None
    case Some(f) => if Decode(f).NoInput? then Some(stale) else Some(Decode(f).token)
  }

  /**
   * The C string recv_and_unpack's static buffer holds afterwards: the token
   * sscanf stored, else what it held before; *identifier is a copy of it
   * unless the receive failed.
   */
  function BufferAfter(frame: Option<seq<char>>, stale: string): string
    requires frame.Some? ==> NUL in frame.value
  {
    if frame.None? then stale else UnpackedIdentifier(frame, stale).value
  }

  /** *value after recv_and_unpack. */
  function UnpackedValue(frame: Option<seq<char>>, prior: Long): Long
    requires frame.Some? ==> NUL in frame.value
  {
    match frame
    case None => 0
    case Some(f) => if Decode(f).TokenAndLong? then Decode(f).value else prior
  }

  /** A frame written by the encoder unpacks to its pair, whatever the buffer and *value held. */
  lemma UnpackEncoded(identifier: string, value: Long, stale: string, prior: Long)
    requires ValidIdentifier(identifier) && Fits(identifier, value)
    ensures Receivable(Encode(identifier, value))
    ensures Unpack(Some(Encode(identifier, value)), stale, prior) == (Some(identifier), value)
  {
    RoundTrip(identifier, value);
  }
}
