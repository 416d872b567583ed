/**
 * The anchor strings the extractors search for. Their values are defined in
 * rtspCommon.h, which is not part of this model, so they are left
 * unspecified: every property proved here holds for any non-empty values.
 */
module Markers {

  /** A non-empty string constant. */
  type Marker = s: string | |s| > 0 witness " "

  const SetupCport: Marker      // SETUP_CPORT: the Transport client_port parameter
  const SetupSport: Marker      // SETUP_SPORT: the Transport server_port parameter
  const TimeOut: Marker         // TIME_OUT: the timeout parameter of the Session header
  const SetupSession: Marker    // SETUP_SESSION: the Session header
  const TcpInterleaved: Marker  // TCP_INTERLEAVED: the Transport interleaved parameter
  const RtspResponse: Marker    // RTSP_RESPONSE: the protocol version that opens a Status-Line
  const SdpMVideo: Marker       // SDP_M_VIDEO: the m= line of the video media description
  const SdpAControl: Marker     // SDP_A_CONTROL: the a=control: attribute
  const UdpTransport: Marker    // UDP_TRANSPORT: the RTP/AVP (UDP) transport profile
  const TcpTransport: Marker    // TCP_TRANSPORT: the RTP/AVP/TCP transport profile

  /** The Content-Length header anchor, spelled out in GetSDPLength. */
  const ContentLength: Marker := "Content-Length: "
}
