/**
 * What the header-field extractors of rtspCommon.c read out of an RTSP
 * response: each finds an anchor, a start delimiter after it and an end
 * delimiter, and takes the text strictly between the two delimiters.
 * The fields come from RFC 2326: Transport client_port, server_port and
 * interleaved (section 12.39), Session and its timeout parameter (section
 * 12.37), Content-Length (section 12.14) and the Status-Line (section 7.1).
 */
module Fields {
  import opened Wrappers
  import opened Search
  import opened Decimal
  import opened Markers

  /**
   * The text after a terminator that ends a value: a ';', or (when the rule
   * allows it) a CRLF with no ';' anywhere after it.
   */
  predicate EndsValue(tail: string, t: Terminator)
  {
    (|tail| > 0 && tail[0] == ';') ||
    (t.SemicolonElseCrlf? && |tail| >= 2 && tail[..2] == Crlf && ';' !in tail)
  }

  /**
   * The numeric spans of the `from-to` range introduced by `anchor`, in the
   * order they are read: from the first '=' at or after the anchor to the
   * next '-', then from that '-' to its terminator. The list stops at the
   * first delimiter that is missing.
   */
  function RangeSpans(buf: string, anchor: string, last: Terminator): (spans: seq<string>)
    ensures |spans| <= 2
    ensures |spans| >= 1 ==> '-' !in spans[0]
    ensures |spans| == 2 ==> ';' !in spans[1]
  {
    match Find(buf, anchor, 0)
    case None => []
    case Some(a) =>
      match FindChar(buf, '=', a)
      case None => []
      case Some(e) =>
        match FindChar(buf, '-', e)
        case None => []
        case Some(d) =>
          [buf[e + 1..d]] +
          match FindTerminator(buf, d, last)
          case None => []
          case Some(t) => [buf[d + 1..t]]
  }

  /** The four port spans ParseUdpPort reads: client range, then server range. */
  function UdpPortSpans(buf: string): (spans: seq<string>)
    ensures |spans| <= 4
    ensures |spans| > 2 ==> |RangeSpans(buf, SetupCport, Semicolon)| == 2
  {
    var client := RangeSpans(buf, SetupCport, Semicolon);
    if |client| < 2 then client else client + RangeSpans(buf, SetupSport, SemicolonElseCrlf)
  }

  /** The text of the Session header's timeout parameter: from '=' to ';', or to CRLF. */
  function TimeoutSpan(buf: string): (r: Option<string>)
    ensures r.Some? ==> ';' !in r.value
  {
    match Find(buf, TimeOut, 0)
    case None => None
    case Some(a) =>
      match FindChar(buf, '=', a)
      case None => None
      case Some(e) =>
        match FindTerminator(buf, e, SemicolonElseCrlf)
        case None => None
        case Some(t) => Some(buf[e + 1..t])
  }

  /** The value ParseTimeout stores, if it succeeds. */
  function TimeoutValue(buf: string): (r: Option<int>)
    ensures r.Some? ==> -(Pow10(MaxDigits) as int) < r.value < Pow10(MaxDigits)
  {
    match TimeoutSpan(buf)
    case None => None
    case Some(span) => ScratchValue(span)
  }

  /** No CR immediately followed by LF anywhere in `s`. */
  predicate NoCrlf(s: string)
  {
    forall k :: 0 <= k < |s| - 1 ==> !(s[k] == '\r' && s[k + 1] == '\n')
  }

  /** A stretch of `buf` in which no CRLF starts holds no CRLF. */
  lemma NoCrlfBefore(buf: string, lo: nat, hi: nat)
    requires lo <= hi <= |buf| && AbsentBetween(buf, Crlf, lo, hi)
    ensures NoCrlf(buf[lo..hi])
  {
    var part := buf[lo..hi];
    forall k | 0 <= k < |part| - 1 ensures !(part[k] == '\r' && part[k + 1] == '\n') {
      assert part[k] == buf[lo + k] && part[k + 1] == buf[lo + k + 1];
      assert !OccursAt(buf, Crlf, lo + k);
      var two := buf[lo + k..lo + k + 2];
      assert two[0] == buf[lo + k] && two[1] == buf[lo + k + 1];
    }
  }

  /**
   * The session identifier: from the first ' ' at or after the anchor to
   * whichever of ';' and CRLF comes first. Both must occur after the space.
   */
  function SessionIdSpan(buf: string): (r: Option<string>)
    ensures r.Some? ==> ';' !in r.value && NoCrlf(r.value)
    ensures r.Some? ==> ';' in buf
  {
    match Find(buf, SetupSession, 0)
    case None => None
    case Some(a) =>
      match FindChar(buf, ' ', a)
      case None => None
      case Some(p) =>
        match Find(buf, Crlf, p)
        case None => None
        case Some(sep) =>
          match FindChar(buf, ';', p)
          case None => None
          case Some(nsep) =>
            var end := if nsep < sep then nsep else sep;
            NoCrlfBefore(buf, p + 1, end);
            Some(buf[p + 1..end])
  }

  /** The two channel spans ParseInterleaved reads. */
  function InterleavedSpans(buf: string): (spans: seq<string>)
    ensures |spans| <= 2
  {
    RangeSpans(buf, TcpInterleaved, SemicolonElseCrlf)
  }

  /** `s` begins with `prefix` (the strncmp test of RtspResponseStatus). */
  predicate StartsWith(s: string, prefix: string)
  {
    |prefix| <= |s| && s[..|prefix|] == prefix
  }

  /**
   * RtspResponseStatus: the status code of a Status-Line, or -1 when the
   * response does not start with RTSP_RESPONSE or has no ' ' after it.
   * A code too long for the scratch array is also reported as -1.
   */
  function ResponseStatus(response: string): (r: int)
    ensures -(Pow10(MaxDigits) as int) < r < Pow10(MaxDigits)
    ensures !StartsWith(response, RtspResponse) ==> r == -1
    ensures (forall k :: |RtspResponse| <= k < |response| ==> response[k] != ' ') ==> r == -1
  {
    var offset := |RtspResponse|;
    if !StartsWith(response, RtspResponse) then -1
    else
      match FindChar(response, ' ', offset)
      case None => -1
      case Some(sep) =>
        match ScratchValue(response[offset..sep])
        case None => -1
        case Some(code) => code
  }

  /** A Status-Line whose code is written in decimal yields that code. */
  lemma ResponseStatusOfStatusLine(response: string, code: nat, rest: string)
    requires response == RtspResponse + DecimalText(code) + " " + rest
    requires |DecimalText(code)| <= MaxDigits
    ensures ResponseStatus(response) == code
  {
    var d := DecimalText(code);
    var offset := |RtspResponse|;
    assert response[..offset] == RtspResponse;
    NotInDigits(d, ' ');
    FindCharAfter(response, RtspResponse, d, " " + rest, ' ');
    assert response[offset..offset + |d|] == d + [];
    ScratchValueOfDecimal(code, []);
  }

  /** The number of values of a uint32_t: conversions to it wrap modulo this. */
  const Uint32Range: nat := 0x1_0000_0000

  /**
   * GetSDPLength: the Content-Length value, or 0 when the header or the CRLF
   * after it is missing. A value too long for the scratch array is also
   * reported as 0. The long that atol yields is returned as a uint32_t, so a
   * negative value wraps around.
   */
  function SdpLength(buf: string): (r: nat)
    ensures r < Uint32Range
    ensures r < Pow10(MaxDigits) || r > Uint32Range - Pow10(MaxDigits)
  {
    match SdpLengthSpan(buf)
    case None => 0
    case Some(span) =>
      match ScratchValue(span)
      case None => 0
      case Some(n) =>
        assert Pow10(MaxDigits) == 10_000_000 by { Pow10Seven(); }
        if n < 0 then n + Uint32Range else n
  }

  /** The text of the Content-Length value: from the ' ' after the anchor to the CRLF. */
  function SdpLengthSpan(buf: string): (r: Option<string>)
    ensures r.Some? ==> NoCrlf(r.value)
  {
    match Find(buf, ContentLength, 0)
    case None => None
    case Some(p) =>
      match FindChar(buf, ' ', p)
      case None => None
      case Some(sep) =>
        match Find(buf, Crlf, sep)
        case None => None
        case Some(q) =>
          NoCrlfBefore(buf, sep + 1, q);
          Some(buf[sep + 1..q])
  }

  /**
   * The ' ' GetSDPLength looks for after the anchor is always the anchor's
   * own last character, so its "not found" branch cannot be taken.
   */
  lemma ContentLengthSpace(buf: string, p: nat)
    requires OccursAt(buf, ContentLength, p)
    ensures FindChar(buf, ' ', p) == Some(p + |ContentLength| - 1)
  {
    var n := |ContentLength|;
    forall k | p <= k < p + n - 1 ensures buf[k] != ' ' {
      assert buf[k] == ContentLength[k - p];
    }
    assert buf[p + n - 1] == ContentLength[n - 1];
    FindCharIs(buf, ' ', p, p + n - 1);
  }

  /** SdpLengthSpan once each of its searches is known to succeed. */
  lemma SdpLengthSpanAt(buf: string, p: nat, sep: nat, q: nat)
    requires Find(buf, ContentLength, 0) == Some(p)
    requires FindChar(buf, ' ', p) == Some(sep)
    requires Find(buf, Crlf, sep) == Some(q)
    ensures sep < q && SdpLengthSpan(buf) == Some(buf[sep + 1..q])
  {
  }

  /** The header text from the anchor's last character (its ' ') on. */
  lemma ContentLengthParts(buf: string, p: nat, d: string, sep: nat)
    requires OccursAt(buf, ContentLength + d + Crlf, p) && sep == p + |ContentLength| - 1
    ensures OccursAt(buf, ContentLength, p)
    ensures OccursAt(buf, [' '] + d + Crlf, sep)
  {
    var head := ContentLength[..|ContentLength| - 1];
    assert ContentLength + d + Crlf == head + ([' '] + d + Crlf);
    OccursAtSplit(buf, p, head, [' '] + d + Crlf);
    assert ContentLength + d + Crlf == ContentLength + (d + Crlf);
    OccursAtSplit(buf, p, ContentLength, d + Crlf);
  }

  /** A Content-Length value of digits at the anchor's first occurrence `p` is the span read. */
  lemma SdpLengthSpanOfHeader(buf: string, p: nat, d: string)
    requires OccursAt(buf, ContentLength + d + Crlf, p)
    requires AbsentBetween(buf, ContentLength, 0, p)
    requires '\r' !in d
    ensures SdpLengthSpan(buf) == Some(d)
  {
    var sep := p + |ContentLength| - 1;
    var q := sep + 1 + |d|;
    assert Find(buf, ContentLength, 0) == Some(p) && FindChar(buf, ' ', p) == Some(sep) by {
      ContentLengthParts(buf, p, d, sep);
      FindIs(buf, ContentLength, 0, p);
      ContentLengthSpace(buf, p);
    }
    assert Find(buf, Crlf, sep) == Some(q) && buf[sep + 1..q] == d by {
      ContentLengthParts(buf, p, d, sep);
      FindPast(buf, Crlf, sep, [' '] + d);
      OccursAtSplit(buf, sep, [' '] + d, Crlf);
      AfterDelimiter(buf, sep, [' '], d, q);
    }
    SdpLengthSpanAt(buf, p, sep, q);
  }

  /**
   * A Content-Length header (RFC 2326, section 12.14) written in decimal at
   * the anchor's first occurrence `p` yields its value.
   */
  lemma SdpLengthOfHeader(buf: string, p: nat, n: nat)
    requires OccursAt(buf, ContentLength + DecimalText(n) + Crlf, p)
    requires AbsentBetween(buf, ContentLength, 0, p)
    requires |DecimalText(n)| <= MaxDigits
    ensures SdpLength(buf) == n
  {
    SdpLengthSpanOfHeader(buf, p, DecimalText(n));
    ScratchValueOfDecimal(n, []);
    assert DecimalText(n) + [] == DecimalText(n);
  }

  /**
   * A negative Content-Length value comes back as a large length: the
   * uint32_t result wraps it around.
   */
  lemma SdpLengthOfNegativeHeader(buf: string, p: nat, n: nat)
    requires OccursAt(buf, ContentLength + ("-" + DecimalText(n)) + Crlf, p)
    requires AbsentBetween(buf, ContentLength, 0, p)
    requires |DecimalText(n)| < MaxDigits
    ensures SdpLength(buf) == if n == 0 then 0 else Uint32Range - n
  {
    var d := "-" + DecimalText(n);
    assert SdpLengthSpan(buf) == Some(d) by {
      NotInDigits(DecimalText(n), '\r');
      assert '\r' !in d;
      SdpLengthSpanOfHeader(buf, p, d);
    }
    assert ScratchValue(d) == Some(-(n as int)) by {
      ScratchValueOfNegative(n);
    }
  }

  /**
   * A value at `at` that holds no ';' and no CR, followed by a tail that ends
   * it, is ended exactly there.
   */
  lemma TerminatorPast(buf: string, at: nat, value: string, t: Terminator)
    requires OccursAt(buf, value, at) && ';' !in value && '\r' !in value
    requires EndsValue(buf[at + |value|..], t)
    ensures FindTerminator(buf, at, t) == Some(at + |value|)
  {
    var end := at + |value|;
    var tail := buf[end..];
    if tail[0] == ';' {
      assert buf[at..end + 1] == value + [';'];
      FindCharPast(buf, ';', at, value);
    } else {
      forall k | at <= k < |buf| ensures buf[k] != ';' {
        if k < end { assert buf[k] == buf[at..end][k - at]; }
        else { assert buf[k] == tail[k - end]; }
      }
      assert buf[at..end + 2] == value + Crlf by {
        assert buf[end..end + 2] == tail[..2];
      }
      FindPast(buf, Crlf, at, value);
    }
  }

  /** The anchor first occurs at the start of a key that `delimiter` ends at `e`: both searches stop there. */
  lemma AnchorThen(buf: string, anchor: string, a: nat, key: string, delimiter: char, e: nat)
    requires OccursAt(buf, key + [delimiter], a) && e == a + |key|
    requires StartsWith(key + [delimiter], anchor) && AbsentBetween(buf, anchor, 0, a) && delimiter !in key
    ensures Find(buf, anchor, 0) == Some(a)
    ensures FindChar(buf, delimiter, a) == Some(e)
  {
    OccursAtSplit(buf, a, key, [delimiter]);
    assert buf[a..a + |anchor|] == buf[a..a + |key| + 1][..|anchor|];
    FindIs(buf, anchor, 0, a);
    FindCharPast(buf, delimiter, a, key);
  }

  /** After the '=' at `e`, a run of digits is ended by the '-' at `d` that follows it. */
  lemma DigitsThenDash(buf: string, e: nat, digits: string, d: nat)
    requires OccursAt(buf, "=" + digits + "-", e) && AllDigits(digits) && d == e + 1 + |digits|
    ensures FindChar(buf, '-', e) == Some(d)
    ensures buf[e + 1..d] == digits
  {
    OccursAtSplit(buf, e, "=" + digits, "-");
    OccursAtSplit(buf, e, "=", digits);
    NotInDigits(digits, '-');
    FindCharPast(buf, '-', e, "=" + digits);
  }

  /** After the '-' at `d`, a run of digits is ended by the terminator at `t` that follows it. */
  lemma DigitsThenTerminator(buf: string, d: nat, digits: string, t: nat, last: Terminator)
    requires OccursAt(buf, "-" + digits, d) && AllDigits(digits) && t == d + 1 + |digits|
    requires EndsValue(buf[t..], last)
    ensures FindTerminator(buf, d, last) == Some(t)
    ensures buf[d + 1..t] == digits
  {
    OccursAtSplit(buf, d, "-", digits);
    NotInDigits(digits, ';');
    NotInDigits(digits, '\r');
    TerminatorPast(buf, d, "-" + digits, last);
  }

  /**
   * The text `key=from-to`, with runs of digits as bounds, at index `a`
   * reads back as the two runs when the anchor first occurs at the start of
   * the key, the key holds no '=' and what follows ends the range.
   */
  lemma RangeSpansOfRange(buf: string, anchor: string, last: Terminator,
                          a: nat, key: string, from: string, to: string)
    requires OccursAt(buf, key + "=" + from + "-" + to, a)
    requires AllDigits(from) && AllDigits(to)
    requires StartsWith(key + "=", anchor) && AbsentBetween(buf, anchor, 0, a)
    requires '=' !in key
    requires EndsValue(buf[a + |key| + |from| + |to| + 2..], last)
    ensures RangeSpans(buf, anchor, last) == [from, to]
  {
    var e := a + |key|;
    var d := e + 1 + |from|;
    var t := a + |key| + |from| + |to| + 2;
    RangeParts(buf, a, key, from, to, e, d);
    AnchorThen(buf, anchor, a, key, '=', e);
    DigitsThenDash(buf, e, from, d);
    DigitsThenTerminator(buf, d, to, t, last);
    RangeSpansAt(buf, anchor, last, a, e, d, t, from, to);
  }

  /** The text `key=from-to` at `a`, seen from each of its delimiters. */
  lemma RangeParts(buf: string, a: nat, key: string, from: string, to: string, e: nat, d: nat)
    requires OccursAt(buf, key + "=" + from + "-" + to, a)
    requires e == a + |key| && d == e + 1 + |from|
    ensures OccursAt(buf, key + "=", a)
    ensures OccursAt(buf, "=" + from + "-", e)
    ensures OccursAt(buf, "-" + to, d)
  {
    assert key + "=" + from + "-" + to == (key + "=") + (from + "-" + to);
    OccursAtSplit(buf, a, key + "=", from + "-" + to);
    assert key + "=" + from + "-" + to == key + ("=" + from + "-") + to;
    OccursAtSplit(buf, a, key + ("=" + from + "-"), to);
    OccursAtSplit(buf, a, key, "=" + from + "-");
    assert key + "=" + from + "-" + to == (key + "=" + from) + ("-" + to);
    OccursAtSplit(buf, a, key + "=" + from, "-" + to);
  }

  /** RangeSpans once each of its searches is known to succeed. */
  lemma RangeSpansAt(buf: string, anchor: string, last: Terminator, a: nat, e: nat, d: nat, t: nat,
                     from: string, to: string)
    requires Find(buf, anchor, 0) == Some(a)
    requires FindChar(buf, '=', a) == Some(e)
    requires FindChar(buf, '-', e) == Some(d) && buf[e + 1..d] == from
    requires FindTerminator(buf, d, last) == Some(t) && buf[d + 1..t] == to
    ensures RangeSpans(buf, anchor, last) == [from, to]
  {
  }

  /** A value at `at` that holds no ';' and is followed by one is ended there, whatever else it holds. */
  lemma SemicolonPast(buf: string, at: nat, value: string, t: Terminator)
    requires OccursAt(buf, value + ";", at) && ';' !in value
    ensures FindTerminator(buf, at, t) == Some(at + |value|)
  {
    FindCharPast(buf, ';', at, value);
  }

  /** The text after a one-character delimiter at `at`, up to `end`. */
  lemma AfterDelimiter(buf: string, at: nat, delimiter: string, value: string, end: nat)
    requires OccursAt(buf, delimiter + value, at) && |delimiter| == 1 && end == at + 1 + |value|
    ensures buf[at + 1..end] == value
  {
    OccursAtSplit(buf, at, delimiter, value);
  }

  /** The text `key=value` at `a`, seen from its '='. */
  lemma KeyValueParts(buf: string, a: nat, key: string, value: string, e: nat)
    requires OccursAt(buf, key + "=" + value, a) && e == a + |key|
    ensures OccursAt(buf, key + "=", a)
    ensures OccursAt(buf, "=" + value, e)
  {
    OccursAtSplit(buf, a, key + "=", value);
    assert key + "=" + value == key + ("=" + value);
    OccursAtSplit(buf, a, key, "=" + value);
  }

  /** TimeoutSpan once each of its searches is known to succeed. */
  lemma TimeoutSpanAt(buf: string, a: nat, e: nat, t: nat, value: string)
    requires Find(buf, TimeOut, 0) == Some(a)
    requires FindChar(buf, '=', a) == Some(e)
    requires FindTerminator(buf, e, SemicolonElseCrlf) == Some(t) && buf[e + 1..t] == value
    ensures TimeoutSpan(buf) == Some(value)
  {
  }

  /**
   * A timeout parameter `key=value` at index `a` (RFC 2326, section 12.37),
   * the anchor's first occurrence, whose value holds no ';' and no CR and is
   * ended by a ';' or a CRLF, yields that value.
   */
  lemma TimeoutSpanOfParameter(buf: string, a: nat, key: string, value: string)
    requires OccursAt(buf, key + "=" + value, a)
    requires StartsWith(key + "=", TimeOut) && AbsentBetween(buf, TimeOut, 0, a) && '=' !in key
    requires ';' !in value && '\r' !in value
    requires EndsValue(buf[a + |key| + 1 + |value|..], SemicolonElseCrlf)
    ensures TimeoutSpan(buf) == Some(value)
  {
    var e := a + |key|;
    var t := a + |key| + 1 + |value|;
    assert Find(buf, TimeOut, 0) == Some(a) && FindChar(buf, '=', a) == Some(e) by {
      KeyValueParts(buf, a, key, value, e);
      AnchorThen(buf, TimeOut, a, key, '=', e);
    }
    assert FindTerminator(buf, e, SemicolonElseCrlf) == Some(t) && buf[e + 1..t] == value by {
      KeyValueParts(buf, a, key, value, e);
      TerminatorPast(buf, e, "=" + value, SemicolonElseCrlf);
      AfterDelimiter(buf, e, "=", value, t);
    }
    TimeoutSpanAt(buf, a, e, t, value);
  }

  /** A timeout written in decimal and ended by a ';' or a CRLF yields its value. */
  lemma TimeoutValueOfParameter(buf: string, a: nat, key: string, n: nat)
    requires OccursAt(buf, key + "=" + DecimalText(n), a)
    requires StartsWith(key + "=", TimeOut) && AbsentBetween(buf, TimeOut, 0, a) && '=' !in key
    requires EndsValue(buf[a + |key| + 1 + |DecimalText(n)|..], SemicolonElseCrlf)
    requires |DecimalText(n)| <= MaxDigits
    ensures TimeoutValue(buf) == Some(n)
  {
    NotInDigits(DecimalText(n), ';');
    NotInDigits(DecimalText(n), '\r');
    TimeoutSpanOfParameter(buf, a, key, DecimalText(n));
    ScratchValueOfDecimal(n, []);
    assert DecimalText(n) + [] == DecimalText(n);
  }

  /**
   * The value runs to the first ';' after the '=', even across line ends:
   * the CRLF is looked for only when no ';' follows anywhere in the buffer.
   */
  lemma TimeoutSpanAcrossLines(buf: string, a: nat, key: string, value: string)
    requires OccursAt(buf, key + "=" + value + ";", a)
    requires StartsWith(key + "=", TimeOut) && AbsentBetween(buf, TimeOut, 0, a) && '=' !in key
    requires ';' !in value
    ensures TimeoutSpan(buf) == Some(value)
  {
    var e := a + |key|;
    var t := e + 1 + |value|;
    assert key + "=" + value + ";" == key + "=" + (value + ";");
    KeyValueParts(buf, a, key, value + ";", e);
    assert Find(buf, TimeOut, 0) == Some(a) && FindChar(buf, '=', a) == Some(e) by {
      AnchorThen(buf, TimeOut, a, key, '=', e);
    }
    assert FindTerminator(buf, e, SemicolonElseCrlf) == Some(t) && buf[e + 1..t] == value by {
      assert "=" + (value + ";") == ("=" + value) + ";";
      SemicolonPast(buf, e, "=" + value, SemicolonElseCrlf);
      OccursAtSplit(buf, e, "=" + value, ";");
      AfterDelimiter(buf, e, "=", value, t);
    }
    TimeoutSpanAt(buf, a, e, t, value);
  }

  /**
   * So a well-formed `timeout=n` at the end of its line, with a ';' later in
   * the buffer more than MaxDigits characters on, gives a span too long for
   * the scratch array (an overflow in C); the model reports failure.
   */
  lemma TimeoutLostAcrossLines(buf: string, a: nat, key: string, n: nat, more: string)
    requires OccursAt(buf, key + "=" + (DecimalText(n) + Crlf + more) + ";", a)
    requires StartsWith(key + "=", TimeOut) && AbsentBetween(buf, TimeOut, 0, a) && '=' !in key
    requires ';' !in more
    requires |DecimalText(n)| + 2 + |more| > MaxDigits
    ensures TimeoutValue(buf) == None
  {
    NotInDigits(DecimalText(n), ';');
    TimeoutSpanAcrossLines(buf, a, key, DecimalText(n) + Crlf + more);
  }

  /** SessionIdSpan once each of its searches is known to succeed. */
  lemma SessionIdSpanAt(buf: string, a: nat, p: nat, sep: nat, nsep: nat, end: nat, id: string)
    requires Find(buf, SetupSession, 0) == Some(a)
    requires FindChar(buf, ' ', a) == Some(p)
    requires Find(buf, Crlf, p) == Some(sep)
    requires FindChar(buf, ';', p) == Some(nsep)
    requires end == (if nsep < sep then nsep else sep) && buf[p + 1..end] == id
    ensures SessionIdSpan(buf) == Some(id)
  {
  }

  /** The text `key id` followed by `last` at `a`, seen from its ' '. */
  lemma KeySpaceParts(buf: string, a: nat, key: string, id: string, last: string, p: nat)
    requires OccursAt(buf, key + " " + id + last, a) && p == a + |key|
    ensures OccursAt(buf, key + [' '], a)
    ensures OccursAt(buf, " " + id + last, p)
    ensures OccursAt(buf, " " + id, p)
  {
    assert key + " " + id + last == (key + [' ']) + (id + last);
    OccursAtSplit(buf, a, key + [' '], id + last);
    assert key + " " + id + last == key + (" " + id + last);
    OccursAtSplit(buf, a, key, " " + id + last);
    OccursAtSplit(buf, p, " " + id, last);
  }

  /** After ` id;` at `p`, with no CR in the identifier, the first CRLF comes after the ';'. */
  lemma CrlfAfterSemicolon(buf: string, p: nat, id: string, q: nat) returns (sep: nat)
    requires OccursAt(buf, " " + id + ";", p) && '\r' !in id
    requires p <= q && OccursAt(buf, Crlf, q)
    ensures Find(buf, Crlf, p) == Some(sep) && p + 1 + |id| < sep
  {
    FindReaches(buf, Crlf, p, q);
    sep := Find(buf, Crlf, p).value;
    var end := p + 1 + |id|;
    forall k | p <= k < end + 1 && k < |buf| ensures buf[k] != Crlf[0] {
      assert buf[k] == buf[p..end + 1][k - p];
    }
    AbsentWhereFirstCharAbsent(buf, Crlf, p, end + 1);
  }

  /** After ` id` and a CRLF at `p`, with no ';' in the identifier, the first ';' comes after the CRLF. */
  lemma SemicolonAfterCrlf(buf: string, p: nat, id: string, q: nat) returns (nsep: nat)
    requires OccursAt(buf, " " + id + Crlf, p) && ';' !in id
    requires p <= q < |buf| && buf[q] == ';'
    ensures FindChar(buf, ';', p) == Some(nsep) && p + 1 + |id| < nsep
  {
    var end := p + 1 + |id|;
    FindCharReaches(buf, ';', p, q);
    nsep := FindChar(buf, ';', p).value;
    forall k | p <= k < end + 2 ensures buf[k] != ';' {
      assert buf[k] == buf[p..end + 2][k - p];
    }
  }

  /**
   * A Session header `key id;...` at index `a` (RFC 2326, section 12.37),
   * the anchor's first occurrence, whose identifier is ended by a ';' before
   * any CRLF, yields the identifier, provided a CRLF follows somewhere.
   */
  lemma SessionIdBeforeParameter(buf: string, a: nat, key: string, id: string, q: nat)
    requires OccursAt(buf, key + " " + id + ";", a)
    requires StartsWith(key + " ", SetupSession) && AbsentBetween(buf, SetupSession, 0, a) && ' ' !in key
    requires ';' !in id && '\r' !in id
    requires a + |key| <= q && OccursAt(buf, Crlf, q)
    ensures SessionIdSpan(buf) == Some(id)
  {
    var p := a + |key|;
    var end := p + 1 + |id|;
    assert Find(buf, SetupSession, 0) == Some(a) && FindChar(buf, ' ', a) == Some(p) by {
      KeySpaceParts(buf, a, key, id, ";", p);
      AnchorThen(buf, SetupSession, a, key, ' ', p);
    }
    assert FindChar(buf, ';', p) == Some(end) && buf[p + 1..end] == id by {
      KeySpaceParts(buf, a, key, id, ";", p);
      FindCharPast(buf, ';', p, " " + id);
      AfterDelimiter(buf, p, " ", id, end);
    }
    KeySpaceParts(buf, a, key, id, ";", p);
    var sep := CrlfAfterSemicolon(buf, p, id, q);
    SessionIdSpanAt(buf, a, p, sep, end, end, id);
  }

  /**
   * A Session header `key id` ended by a CRLF at index `a` yields the
   * identifier, provided a ';' follows somewhere later in the buffer.
   */
  lemma SessionIdAtLineEnd(buf: string, a: nat, key: string, id: string, q: nat)
    requires OccursAt(buf, key + " " + id + Crlf, a)
    requires StartsWith(key + " ", SetupSession) && AbsentBetween(buf, SetupSession, 0, a) && ' ' !in key
    requires ';' !in id && '\r' !in id
    requires a + |key| <= q < |buf| && buf[q] == ';'
    ensures SessionIdSpan(buf) == Some(id)
  {
    var p := a + |key|;
    var end := p + 1 + |id|;
    assert Find(buf, SetupSession, 0) == Some(a) && FindChar(buf, ' ', a) == Some(p) by {
      KeySpaceParts(buf, a, key, id, Crlf, p);
      AnchorThen(buf, SetupSession, a, key, ' ', p);
    }
    assert Find(buf, Crlf, p) == Some(end) && buf[p + 1..end] == id by {
      KeySpaceParts(buf, a, key, id, Crlf, p);
      FindPast(buf, Crlf, p, " " + id);
      AfterDelimiter(buf, p, " ", id, end);
    }
    KeySpaceParts(buf, a, key, id, Crlf, p);
    var nsep := SemicolonAfterCrlf(buf, p, id, q);
    SessionIdSpanAt(buf, a, p, end, nsep, end, id);
  }

  /** The decimal texts of some numbers, in order. */
  function DecimalTexts(ns: seq<nat>): (ds: seq<string>)
    ensures |ds| == |ns|
    ensures forall i :: 0 <= i < |ns| ==> ds[i] == DecimalText(ns[i])
  {
    if ns == [] then [] else [DecimalText(ns[0])] + DecimalTexts(ns[1..])
  }

  /** Numbers whose decimal texts fit the scratch array read back from those texts. */
  lemma ScratchValuesOfDecimals(ns: seq<nat>)
    requires forall i :: 0 <= i < |ns| ==> |DecimalText(ns[i])| <= MaxDigits
    ensures ScratchValues(DecimalTexts(ns)) == ns
  {
    var spans := DecimalTexts(ns);
    forall i | 0 <= i < |ns| ensures ScratchValue(spans[i]) == Some(ns[i]) {
      ScratchValueOfDecimal(ns[i], []);
      assert DecimalText(ns[i]) + [] == DecimalText(ns[i]);
    }
    ScratchValuesOfFitting(spans, ns);
  }

  /** A range text followed by ';' is ended by that ';'. */
  lemma RangeThenSemicolon(buf: string, a: nat, key: string, from: string, to: string, t: nat)
    requires OccursAt(buf, key + "=" + from + "-" + to + ";", a)
    requires t == a + |key| + |from| + |to| + 2
    ensures OccursAt(buf, key + "=" + from + "-" + to, a)
    ensures EndsValue(buf[t..], Semicolon)
  {
    OccursAtSplit(buf, a, key + "=" + from + "-" + to, ";");
    assert buf[t] == buf[t..t + 1][0];
  }

  /** The four port spans are the client range followed by the server range. */
  lemma UdpPortSpansOfRanges(buf: string, client: seq<string>, server: seq<string>)
    requires RangeSpans(buf, SetupCport, Semicolon) == client && |client| == 2
    requires RangeSpans(buf, SetupSport, SemicolonElseCrlf) == server
    ensures UdpPortSpans(buf) == client + server
  {
  }

  /**
   * A Transport header with `client_port=a-b;` at index `ca` and
   * `server_port=c-d` at index `sa` (RFC 2326, section 12.39), each the first
   * occurrence of its anchor and each bound a run of digits, yields the four
   * runs as the port spans.
   */
  lemma UdpPortSpansOfTransport(buf: string, ca: nat, ckey: string, c1: string, c2: string,
                                sa: nat, skey: string, s1: string, s2: string)
    requires OccursAt(buf, ckey + "=" + c1 + "-" + c2 + ";", ca)
    requires StartsWith(ckey + "=", SetupCport) && AbsentBetween(buf, SetupCport, 0, ca) && '=' !in ckey
    requires OccursAt(buf, skey + "=" + s1 + "-" + s2, sa)
    requires StartsWith(skey + "=", SetupSport) && AbsentBetween(buf, SetupSport, 0, sa) && '=' !in skey
    requires EndsValue(buf[sa + |skey| + |s1| + |s2| + 2..], SemicolonElseCrlf)
    requires AllDigits(c1) && AllDigits(c2) && AllDigits(s1) && AllDigits(s2)
    ensures UdpPortSpans(buf) == [c1, c2, s1, s2]
  {
    assert RangeSpans(buf, SetupCport, Semicolon) == [c1, c2] by {
      RangeThenSemicolon(buf, ca, ckey, c1, c2, ca + |ckey| + |c1| + |c2| + 2);
      RangeSpansOfRange(buf, SetupCport, Semicolon, ca, ckey, c1, c2);
    }
    assert RangeSpans(buf, SetupSport, SemicolonElseCrlf) == [s1, s2] by {
      RangeSpansOfRange(buf, SetupSport, SemicolonElseCrlf, sa, skey, s1, s2);
    }
    UdpPortSpansOfRanges(buf, [c1, c2], [s1, s2]);
  }

  /**
   * A Transport header with `client_port=a-b;` at index `ca` and
   * `server_port=c-d` at index `sa` (RFC 2326, section 12.39), each the first
   * occurrence of its anchor, yields the four ports in the order cport_from,
   * cport_to, sport_from, sport_to.
   */
  lemma UdpPortsOfTransport(buf: string, ca: nat, ckey: string, c1: nat, c2: nat,
                            sa: nat, skey: string, s1: nat, s2: nat)
    requires OccursAt(buf, ckey + "=" + DecimalText(c1) + "-" + DecimalText(c2) + ";", ca)
    requires StartsWith(ckey + "=", SetupCport) && AbsentBetween(buf, SetupCport, 0, ca) && '=' !in ckey
    requires OccursAt(buf, skey + "=" + DecimalText(s1) + "-" + DecimalText(s2), sa)
    requires StartsWith(skey + "=", SetupSport) && AbsentBetween(buf, SetupSport, 0, sa) && '=' !in skey
    requires EndsValue(buf[sa + |skey| + |DecimalText(s1)| + |DecimalText(s2)| + 2..], SemicolonElseCrlf)
    requires |DecimalText(c1)| <= MaxDigits && |DecimalText(c2)| <= MaxDigits
    requires |DecimalText(s1)| <= MaxDigits && |DecimalText(s2)| <= MaxDigits
    ensures ScratchValues(UdpPortSpans(buf)) == [c1, c2, s1, s2]
  {
    UdpPortSpansOfTransport(buf, ca, ckey, DecimalText(c1), DecimalText(c2),
                            sa, skey, DecimalText(s1), DecimalText(s2));
    assert [DecimalText(c1), DecimalText(c2), DecimalText(s1), DecimalText(s2)] == DecimalTexts([c1, c2, s1, s2]);
    ScratchValuesOfDecimals([c1, c2, s1, s2]);
  }

  /** An `interleaved=a-b` parameter at index `a` yields the two channel numbers. */
  lemma InterleavedOfTransport(buf: string, a: nat, key: string, from: nat, to: nat)
    requires OccursAt(buf, key + "=" + DecimalText(from) + "-" + DecimalText(to), a)
    requires StartsWith(key + "=", TcpInterleaved) && AbsentBetween(buf, TcpInterleaved, 0, a) && '=' !in key
    requires EndsValue(buf[a + |key| + |DecimalText(from)| + |DecimalText(to)| + 2..], SemicolonElseCrlf)
    requires |DecimalText(from)| <= MaxDigits && |DecimalText(to)| <= MaxDigits
    ensures ScratchValues(InterleavedSpans(buf)) == [from, to]
  {
    RangeSpansOfRange(buf, TcpInterleaved, SemicolonElseCrlf, a, key, DecimalText(from), DecimalText(to));
    assert [DecimalText(from), DecimalText(to)] == DecimalTexts([from, to]);
    ScratchValuesOfDecimals([from, to]);
  }

  /** An anchor that ends in its own '=' reads the range too, as strchr finds that '='. */
  lemma RangeSpansOfAnchorWithDelimiter()
    ensures RangeSpans("RTP/AVP/TCP;interleaved=0-1\r\n", "interleaved=", SemicolonElseCrlf) == ["0", "1"]
  {
    var buf := "RTP/AVP/TCP;interleaved=0-1\r\n";
    assert buf == "RTP/AVP/TCP;" + ("interleaved" + "=" + "0" + "-" + "1") + "\r\n";
    assert OccursAt(buf, "interleaved" + "=" + "0" + "-" + "1", 12);
    assert AbsentBetween(buf, "interleaved=", 0, 12) by {
      AbsentWhereFirstCharAbsent(buf, "interleaved=", 0, 12);
    }
    assert buf[12 + |"interleaved"| + 1 + 1 + 2..] == "\r\n";
    RangeSpansOfRange(buf, "interleaved=", SemicolonElseCrlf, 12, "interleaved", "0", "1");
  }

  /** Without its anchor a range yields no spans: the extractor fails before storing anything. */
  lemma RangeSpansWithoutAnchor(buf: string, anchor: string, last: Terminator)
    requires forall k :: !OccursAt(buf, anchor, k)
    ensures RangeSpans(buf, anchor, last) == []
  {
    FindMissing(buf, anchor, 0);
  }

  /** Without a client_port parameter ParseUdpPort reads no port at all. */
  lemma UdpPortSpansWithoutClientPort(buf: string)
    requires forall k :: !OccursAt(buf, SetupCport, k)
    ensures UdpPortSpans(buf) == []
  {
    RangeSpansWithoutAnchor(buf, SetupCport, Semicolon);
  }

  /** Without the timeout anchor ParseTimeout fails. */
  lemma TimeoutWithoutAnchor(buf: string)
    requires forall k :: !OccursAt(buf, TimeOut, k)
    ensures TimeoutValue(buf) == None
  {
    FindMissing(buf, TimeOut, 0);
  }

  /** Without the Session anchor ParseSessionID fails. */
  lemma SessionIdWithoutAnchor(buf: string)
    requires forall k :: !OccursAt(buf, SetupSession, k)
    ensures SessionIdSpan(buf) == None
  {
    FindMissing(buf, SetupSession, 0);
  }

  /** Without a Content-Length header GetSDPLength reports 0. */
  lemma SdpLengthWithoutHeader(buf: string)
    requires forall k :: !OccursAt(buf, ContentLength, k)
    ensures SdpLength(buf) == 0
  {
    FindMissing(buf, ContentLength, 0);
  }
}
