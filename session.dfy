/**
 * The RTSP session state that the extractors of rtspCommon.c fill in, and
 * the extractors themselves as methods that update it in place. Each method
 * runs the searches of its C function in the same order, writes the fields
 * the C function writes in the same cases (including the numbers stored
 * before a later step fails), and is proved to leave the session as the
 * specification functions of Fields and Sdp say.
 */
module RtspCommon {
  import opened Wrappers
  import opened Search
  import opened Decimal
  import opened Markers
  import opened Fields
  import opened Sdp

  /** The lower transport of the video stream (RTP_AVP_UDP, RTP_AVP_TCP). */
  datatype TransportKind = RtpAvpUdp | RtpAvpTcp

  /** transport.udp: the client and server port ranges of RTP over UDP. */
  datatype UdpPorts = UdpPorts(cportFrom: int, cportTo: int, sportFrom: int, sportTo: int)

  /** transport.tcp: the interleaved channel range of RTP over the RTSP connection. */
  datatype TcpChannels = TcpChannels(start: int, end: int)

  /**
   * The numbers of the `from-to` range introduced by `anchor`, read the way
   * the extractors read them: the first '=' after the anchor, the '-' after
   * it, then the terminator; each number goes through the scratch array, and
   * reading stops at the first failure.
   */
  method ReadRange(buf: string, anchor: string, last: Terminator) returns (vs: seq<int>)
    ensures vs == ScratchValues(RangeSpans(buf, anchor, last))
  {
    var p := Find(buf, anchor, 0);
    if p.None? { return []; }
    var e := FindChar(buf, '=', p.value);
    if e.None? { return []; }
    var d := FindChar(buf, '-', e.value);
    if d.None? { return []; }
    var first := buf[e.value + 1..d.value];
    var n := ScratchValue(first);
    var t := FindTerminator(buf, d.value, last);
    ghost var spans := RangeSpans(buf, anchor, last);
    if t.None? {
      assert spans == [first];
      ScratchValuesOfPair(first, first);
      return if n.None? then [] else [n.value];
    }
    var second := buf[d.value + 1..t.value];
    assert spans == [first, second];
    ScratchValuesOfPair(first, second);
    if n.None? { return []; }
    var m := ScratchValue(second);
    if m.None? { return [n.value]; }
    return [n.value, m.value];
  }

  /** RtspSession: the fields of the session structure this part of the client writes. */
  class RtspSession {
    var cseq: int
    var sessid: string
    var timeout: int
    var udp: UdpPorts
    var tcp: TcpChannels
    var trans: TransportKind
    var vcontrol: string   // vmedia.control

    /**
     * ParseUdpPort: reads client_port and then server_port, storing each
     * number as soon as it is read. It succeeds when all four are read; on
     * failure the numbers read before it stay stored.
     */
    method ParseUdpPort(buf: string) returns (ok: bool)
      modifies this
      ensures var vs := ScratchValues(UdpPortSpans(buf));
              (ok <==> |vs| == 4) &&
              udp.cportFrom == (if |vs| > 0 then vs[0] else old(udp.cportFrom)) &&
              udp.cportTo == (if |vs| > 1 then vs[1] else old(udp.cportTo)) &&
              udp.sportFrom == (if |vs| > 2 then vs[2] else old(udp.sportFrom)) &&
              udp.sportTo == (if |vs| > 3 then vs[3] else old(udp.sportTo))
      ensures cseq == old(cseq) && sessid == old(sessid) && timeout == old(timeout)
      ensures tcp == old(tcp) && trans == old(trans) && vcontrol == old(vcontrol)
    {
      var client := ReadRange(buf, SetupCport, Semicolon);
      if |client| > 0 { udp := udp.(cportFrom := client[0]); }
      if |client| > 1 { udp := udp.(cportTo := client[1]); }
      var spans := RangeSpans(buf, SetupCport, Semicolon);
      if |spans| == 2 {
        ScratchValuesAfterPair(spans[0], spans[1], RangeSpans(buf, SetupSport, SemicolonElseCrlf));
        assert spans == [spans[0], spans[1]];
      }
      if |client| < 2 { return false; }
      var server := ReadRange(buf, SetupSport, SemicolonElseCrlf);
      if |server| > 0 { udp := udp.(sportFrom := server[0]); }
      if |server| > 1 { udp := udp.(sportTo := server[1]); }
      return |server| == 2;
    }

    /** ParseTimeout: stores the Session header's timeout when it can be read. */
    method ParseTimeout(buf: string) returns (ok: bool)
      modifies this
      ensures ok <==> TimeoutValue(buf).Some?
      ensures timeout == (if ok then TimeoutValue(buf).value else old(timeout))
      ensures cseq == old(cseq) && sessid == old(sessid) && udp == old(udp)
      ensures tcp == old(tcp) && trans == old(trans) && vcontrol == old(vcontrol)
    {
      var p := Find(buf, TimeOut, 0);
      if p.None? { return false; }
      var e := FindChar(buf, '=', p.value);
      if e.None? { return false; }
      var sep := FindTerminator(buf, e.value, SemicolonElseCrlf);
      if sep.None? { return false; }
      assert TimeoutSpan(buf) == Some(buf[e.value + 1..sep.value]);
      var n := ScratchValue(buf[e.value + 1..sep.value]);
      if n.None? { return false; }
      timeout := n.value;
      return true;
    }

    /**
     * ParseSessionID: stores the session identifier, which ends at the
     * first ';' or CRLF after the ' ' that follows the Session anchor.
     */
    method ParseSessionID(buf: string) returns (ok: bool)
      modifies this
      ensures ok <==> SessionIdSpan(buf).Some?
      ensures sessid == (if ok then SessionIdSpan(buf).value else old(sessid))
      ensures cseq == old(cseq) && timeout == old(timeout) && udp == old(udp)
      ensures tcp == old(tcp) && trans == old(trans) && vcontrol == old(vcontrol)
    {
      var a := Find(buf, SetupSession, 0);
      if a.None? { return false; }
      var p := FindChar(buf, ' ', a.value);
      if p.None? { return false; }
      var sep := Find(buf, Crlf, p.value);
      if sep.None? { return false; }
      var nsep := FindChar(buf, ';', p.value);
      if nsep.None? { return false; }
      if nsep.value < sep.value {
        sessid := buf[p.value + 1..nsep.value];
      } else if nsep.value > sep.value {
        sessid := buf[p.value + 1..sep.value];
      }
      return true;
    }

    /**
     * ParseInterleaved: reads the interleaved channel range. The first
     * channel goes to tcp.start; the second is stored in udp.cportTo, and
     * tcp.end is never written.
     */
    method ParseInterleaved(buf: string) returns (ok: bool)
      modifies this
      ensures var vs := ScratchValues(InterleavedSpans(buf));
              (ok <==> |vs| == 2) &&
              tcp == (if |vs| > 0 then old(tcp).(start := vs[0]) else old(tcp)) &&
              udp == (if |vs| > 1 then old(udp).(cportTo := vs[1]) else old(udp))
      ensures cseq == old(cseq) && sessid == old(sessid) && timeout == old(timeout)
      ensures trans == old(trans) && vcontrol == old(vcontrol)
    {
      var channels := ReadRange(buf, TcpInterleaved, SemicolonElseCrlf);
      if |channels| > 0 { tcp := tcp.(start := channels[0]); }
      if |channels| > 1 { udp := udp.(cportTo := channels[1]); }
      return |channels| == 2;
    }

    /** RtspIncreaseCseq: the next request carries the next sequence number. */
    method IncreaseCseq()
      modifies this
      ensures cseq == old(cseq) + 1
      ensures sessid == old(sessid) && timeout == old(timeout) && udp == old(udp)
      ensures tcp == old(tcp) && trans == old(trans) && vcontrol == old(vcontrol)
    {
      cseq := cseq + 1;
    }

    /**
     * GetSdpVideoAcontrol: stores the video control value when one is found;
     * the wildcard '*' and every failed search leave the stored one as it was.
     */
    method GetSdpVideoAcontrol(sdp: string)
      modifies this
      ensures vcontrol == (match VideoControl(sdp) case Some(c) => c case None => old(vcontrol))
      ensures cseq == old(cseq) && sessid == old(sessid) && timeout == old(timeout)
      ensures udp == old(udp) && tcp == old(tcp) && trans == old(trans)
    {
      ghost var control := VideoControl(sdp);
      var v := Find(sdp, Trimmed(SdpMVideo), 0);
      if v.None? { return; }
      var c := Find(sdp, Trimmed(SdpAControl), v.value);
      if c.None? { return; }
      var r := Find(sdp, Trimmed(Crlf), c.value);
      if r.None? { return; }
      var start := c.value + |SdpAControl|;
      if r.value < start {
        assert control == None;
        return;
      }
      if sdp[start] == '*' {
        assert control == None;
        return;
      }
      VideoControlAt(sdp, v.value, c.value, r.value);
      vcontrol := sdp[start..r.value];
    }

    /**
     * GetSdpVideoTransport: selects RTP/AVP over UDP when the video
     * description names that profile, and otherwise changes nothing.
     */
    method GetSdpVideoTransport(sdp: string)
      modifies this
      ensures trans == (if VideoUsesUdp(sdp) then RtpAvpUdp else old(trans))
      ensures cseq == old(cseq) && sessid == old(sessid) && timeout == old(timeout)
      ensures udp == old(udp) && tcp == old(tcp) && vcontrol == old(vcontrol)
    {
      var v := Find(sdp, Trimmed(SdpMVideo), 0);
      if v.None? { return; }
      var u := Find(sdp, Trimmed(UdpTransport), v.value);
      if u.Some? {
        trans := RtpAvpUdp;
      }
    }

    /** ParseSdpProto: the transport, then the video control; it always reports success. */
    method ParseSdpProto(sdp: string) returns (ok: bool)
      modifies this
      ensures ok
      ensures trans == (if VideoUsesUdp(sdp) then RtpAvpUdp else old(trans))
      ensures vcontrol == (match VideoControl(sdp) case Some(c) => c case None => old(vcontrol))
      ensures cseq == old(cseq) && sessid == old(sessid) && timeout == old(timeout)
      ensures udp == old(udp) && tcp == old(tcp)
    {
      GetSdpVideoTransport(sdp);
      GetSdpVideoAcontrol(sdp);
      return true;
    }
  }
}
