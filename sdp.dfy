/**
 * What rtspCommon.c reads out of the SDP session description (RFC 4566)
 * carried by a DESCRIBE response: the control URL of the video media
 * description (its a=control attribute, section 6 of RFC 4566) and whether
 * that description announces the RTP/AVP profile over UDP.
 *
 * Each scan passes the marker's length minus one as the needle length, so
 * every marker is searched for without its last character (Trimmed); the
 * line end is found by its '\r' alone.
 */
module Sdp {
  import opened Wrappers
  import opened Search
  import opened Markers

  /**
   * GetSdpVideoAcontrol: the control value of the first a=control attribute
   * at or after the video marker, running to the next '\r'. None when a
   * marker or the '\r' is missing, when the value is the wildcard '*', and
   * when the '\r' comes before the value would start.
   */
  function VideoControl(sdp: string): (r: Option<string>)
    ensures r.Some? ==> '\r' !in r.value
    ensures r.Some? && |r.value| > 0 ==> r.value[0] != '*'
  {
    match Find(sdp, Trimmed(SdpMVideo), 0)
    case None => None
    case Some(v) =>
      match Find(sdp, Trimmed(SdpAControl), v)
      case None => None
      case Some(c) =>
        match Find(sdp, Trimmed(Crlf), c)
        case None => None
        case Some(r) =>
          var start := c + |SdpAControl|;
          if r < start then None
          else if sdp[start] == '*' then None
          else
            TrimmedCrlf();
            AbsentCharBetween(sdp, '\r', start, r);
            Some(sdp[start..r])
  }

  /** The searches of VideoControl, each with its first hit. */
  lemma VideoControlAt(sdp: string, v: nat, c: nat, r: nat)
    requires Find(sdp, Trimmed(SdpMVideo), 0) == Some(v)
    requires Find(sdp, Trimmed(SdpAControl), v) == Some(c)
    requires Find(sdp, Trimmed(Crlf), c) == Some(r)
    requires c + |SdpAControl| <= r && sdp[c + |SdpAControl|] != '*'
    ensures VideoControl(sdp) == Some(sdp[c + |SdpAControl|..r])
  {
  }

  /** The whole a=control attribute at `c` holds the trimmed marker that is searched for. */
  lemma ControlMarkerAt(sdp: string, c: nat, control: string)
    requires OccursAt(sdp, SdpAControl + control + "\r", c)
    ensures OccursAt(sdp, Trimmed(SdpAControl), c)
    ensures c + |SdpAControl| + |control| < |sdp|
    ensures sdp[c + |SdpAControl|..c + |SdpAControl| + |control|] == control
    ensures sdp[c + |SdpAControl| + |control|] == '\r'
  {
    var start := c + |SdpAControl|;
    OccursAtSplit(sdp, c, SdpAControl + control, "\r");
    OccursAtSplit(sdp, c, SdpAControl, control);
    var last := [SdpAControl[|SdpAControl| - 1]];
    assert SdpAControl == Trimmed(SdpAControl) + last;
    OccursAtSplit(sdp, c, Trimmed(SdpAControl), last);
    assert sdp[start + |control|] == sdp[start + |control|..start + |control| + 1][0];
  }

  /**
   * The first a=control attribute after the first video marker, ended by
   * CRLF and not the wildcard, yields its value, whatever precedes the video
   * marker and whatever follows the line.
   */
  lemma VideoControlOfAttribute(sdp: string, v: nat, c: nat, control: string)
    requires OccursAt(sdp, Trimmed(SdpMVideo), v) && AbsentBetween(sdp, Trimmed(SdpMVideo), 0, v)
    requires v <= c && OccursAt(sdp, SdpAControl + control + "\r", c)
    requires AbsentBetween(sdp, Trimmed(SdpAControl), v, c)
    requires '\r' !in SdpAControl && '\r' !in control
    requires |control| > 0 ==> control[0] != '*'
    ensures VideoControl(sdp) == Some(control)
  {
    var start := c + |SdpAControl|;
    var r := start + |control|;
    ControlMarkerAt(sdp, c, control);
    assert Find(sdp, Trimmed(SdpMVideo), 0) == Some(v) by {
      FindIs(sdp, Trimmed(SdpMVideo), 0, v);
    }
    assert Find(sdp, Trimmed(SdpAControl), v) == Some(c) by {
      FindIs(sdp, Trimmed(SdpAControl), v, c);
    }
    assert Find(sdp, Trimmed(Crlf), c) == Some(r) by {
      TrimmedCrlf();
      assert '\r' !in SdpAControl + control;
      FindPast(sdp, "\r", c, SdpAControl + control);
    }
    assert sdp[start] != '*' by {
      if |control| > 0 {
        assert sdp[start] == sdp[start..r][0];
      }
    }
    VideoControlAt(sdp, v, c, r);
  }

  /** The wildcard control `*` of the first a=control attribute after the video marker stores nothing. */
  lemma VideoControlOfWildcard(sdp: string, v: nat, c: nat)
    requires OccursAt(sdp, Trimmed(SdpMVideo), v) && AbsentBetween(sdp, Trimmed(SdpMVideo), 0, v)
    requires v <= c && OccursAt(sdp, SdpAControl + "*", c)
    requires AbsentBetween(sdp, Trimmed(SdpAControl), v, c)
    ensures VideoControl(sdp) == None
  {
    FindIs(sdp, Trimmed(SdpMVideo), 0, v);
    var last := [SdpAControl[|SdpAControl| - 1]];
    assert SdpAControl + "*" == Trimmed(SdpAControl) + (last + "*");
    OccursAtSplit(sdp, c, Trimmed(SdpAControl), last + "*");
    FindIs(sdp, Trimmed(SdpAControl), v, c);
    OccursAtSplit(sdp, c, SdpAControl, "*");
    assert sdp[c + |SdpAControl|] == sdp[c + |SdpAControl|..c + |SdpAControl| + 1][0];
  }

  /**
   * GetSdpVideoTransport: the video description uses RTP/AVP over UDP when
   * the UDP profile marker is found at or after the video marker.
   */
  function VideoUsesUdp(sdp: string): (r: bool)
    ensures r ==> exists u :: OccursAt(sdp, Trimmed(UdpTransport), u)
  {
    match Find(sdp, Trimmed(SdpMVideo), 0)
    case None => false
    case Some(v) => Find(sdp, Trimmed(UdpTransport), v).Some?
  }

  /**
   * Once the first video marker is at `v`, the UDP profile is chosen exactly
   * when its marker occurs somewhere at or after `v`; a profile named only
   * before the video description does not count.
   */
  lemma VideoUsesUdpIff(sdp: string, v: nat)
    requires OccursAt(sdp, Trimmed(SdpMVideo), v) && AbsentBetween(sdp, Trimmed(SdpMVideo), 0, v)
    ensures VideoUsesUdp(sdp) <==> exists u :: v <= u && OccursAt(sdp, Trimmed(UdpTransport), u)
  {
    FindIs(sdp, Trimmed(SdpMVideo), 0, v);
    match Find(sdp, Trimmed(UdpTransport), v)
    case Some(u) =>
      assert v <= u && OccursAt(sdp, Trimmed(UdpTransport), u);
    case None =>
      forall u | v <= u ensures !OccursAt(sdp, Trimmed(UdpTransport), u) {
        if u <= |sdp| {
          assert !OccursAt(sdp, Trimmed(UdpTransport), u);
        }
      }
  }

  /** Without a video media description neither the control value nor the transport is taken. */
  lemma VideoWithoutMarker(sdp: string)
    requires forall k :: !OccursAt(sdp, Trimmed(SdpMVideo), k)
    ensures VideoControl(sdp) == None && !VideoUsesUdp(sdp)
  {
    FindMissing(sdp, Trimmed(SdpMVideo), 0);
  }
}
