/** Wire constants and frame shape of the Attentio Protocol (AP):
    SYNC, LEN, CMD, up to 252 payload bytes, CRC-8; LEN counts CMD and payload. */
module ApWire {
  import opened Bytes
  import Crc8

  const SYNC: byte := 0xA5
  const MAX_PAYLOAD: nat := 252
  const MIN_PACKET: nat := 4
  const MAX_PACKET: nat := 256

  const CMD_CLAIM: byte := 0x01
  const CMD_RELEASE: byte := 0x02
  const CMD_POWER_ON: byte := 0x10
  const CMD_POWER_OFF: byte := 0x11
  const CMD_LED_OFF: byte := 0x20
  const CMD_SET_RGB: byte := 0x21
  const CMD_SET_HSV: byte := 0x22
  const CMD_SET_BRIGHTNESS: byte := 0x23
  const CMD_SET_EFFECT: byte := 0x30
  const CMD_SETTINGS_SET: byte := 0x52
  const CMD_EVT_SESSION_END: byte := 0x82
  const CMD_OK: byte := 0xF0
  const CMD_ERROR: byte := 0xF1
  const ERR_NOT_CONTROLLER: byte := 0x01

  /** Commands only the active controller may issue. */
  predicate RequiresClaim(cmd: byte)
  {
    cmd in {CMD_LED_OFF, CMD_SET_RGB, CMD_SET_HSV, CMD_SET_BRIGHTNESS, CMD_SET_EFFECT,
            CMD_POWER_ON, CMD_POWER_OFF, CMD_SETTINGS_SET}
  }

  predicate ValidLen(b: byte)
  {
    1 <= b <= 253
  }

  lemma LenRange(b: byte)
    ensures ValidLen(b) <==> 1 <= b as nat <= 253
  {
  }

  /** A byte string of the length its LEN byte announces. */
  predicate IsFrame(f: seq<byte>)
  {
    |f| >= MIN_PACKET && f[0] == SYNC && ValidLen(f[1]) && |f| == f[1] as nat + 3
  }

  /** The packet `ap_build_packet` lays out. */
  function Build(cmd: byte, payload: seq<byte>): (f: seq<byte>)
    requires |payload| <= MAX_PAYLOAD
  {
    var body := [ToByte(|payload| + 1), cmd] + payload;
    [SYNC] + body + [Crc8.Crc(body)]
  }

  lemma BuildIsFrame(cmd: byte, payload: seq<byte>)
    requires |payload| <= MAX_PAYLOAD
    ensures IsFrame(Build(cmd, payload))
    ensures Build(cmd, payload)[2] == cmd && |Build(cmd, payload)| == |payload| + 4
  {
    hide Crc8.Crc, ToByte;
    ByteRoundTrip(|payload| + 1);
    LenRange(ToByte(|payload| + 1));
  }
}
