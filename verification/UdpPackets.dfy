/** The frames of the raw-socket echo counter: Ethernet, IPv4 (section 3.1 of RFC 791) and
    UDP (RFC 768) headers, built and read byte by byte. */
module UdpPackets {
  import opened CStrings
  import opened Options
  import opened UdpChecksum

  const SERVER_PORT: Word := 9999
  const CLIENT_PORT: Word := 7777
  const BUF_SIZE := 1024
  const MAX_INPUT_SIZE := 256
  const REPLY_SIZE := 256

  /** Where the IPv4 header, the UDP header and the payload of a frame without IP options start. */
  const IP := 14
  const UDP := 34
  const PAYLOAD := 42

  /** From whom to whom a frame goes. */
  datatype Path = Path(dmac: seq<Byte>, smac: seq<Byte>, saddr: seq<Byte>, daddr: seq<Byte>, sport: Word, dport: Word)

  ghost predicate IsPath(p: Path) {
    |p.dmac| == |p.smac| == 6 && |p.saddr| == |p.daddr| == 4
  }

  function Back(p: Path): Path {
    Path(p.smac, p.dmac, p.daddr, p.saddr, p.dport, p.sport)
  }

  // ----- the frame as a value

  function EtherHeader(p: Path): (h: seq<Byte>)
    requires IsPath(p)
    ensures |h| == 14
  {
    p.dmac + p.smac + [0x08, 0x00]
  }

  /** The IPv4 header before its checksum is filled in. */
  function RawIpHeader(p: Path, total: Word): (h: seq<Byte>)
    requires IsPath(p)
    ensures |h| == 20
  {
    [0x45, 0, total / 0x100, total % 0x100, 0, 0, 0, 0, 64, 17, 0, 0] + p.saddr + p.daddr
  }

  function IpHeader(p: Path, total: Word): (h: seq<Byte>)
    requires IsPath(p)
    ensures |h| == 20
  {
    var raw := RawIpHeader(p, total);
    WithChecksum(raw, Checksum(raw))
  }

  function UdpHeader(p: Path, len: Word): (h: seq<Byte>)
    ensures |h| == 8
  {
    [p.sport / 0x100, p.sport % 0x100, p.dport / 0x100, p.dport % 0x100, len / 0x100, len % 0x100, 0, 0]
  }

  function Frame(p: Path, payload: seq<Byte>): (f: seq<Byte>)
    requires IsPath(p) && |payload| <= 1000
    ensures |f| == PAYLOAD + |payload|
  {
    EtherHeader(p) + IpHeader(p, 28 + |payload|) + UdpHeader(p, 8 + |payload|) + payload
  }

  // ----- reading a frame

  datatype Request = Request(path: Path, payload: seq<Byte>)

  /** The C string at offset `off` of `b`; it also ends with the buffer. */
  function StringAt(b: seq<Byte>, off: nat): seq<Byte>
    decreases |b| - off
  {
    if off >= |b| || b[off] == 0 then [] else [b[off]] + StringAt(b, off + 1)
  }

  // The fields of a frame in a buffer `b`, as the casts to the header structures find them.

  function EtherType(b: seq<Byte>): Word
    requires |b| >= 100
  { Net(b[12], b[13]) }

  function Protocol(b: seq<Byte>): Byte
    requires |b| >= 100
  { b[IP + 9] }

  function Saddr(b: seq<Byte>): seq<Byte>
    requires |b| >= 100
  { b[IP + 12..IP + 16] }

  function Daddr(b: seq<Byte>): seq<Byte>
    requires |b| >= 100
  { b[IP + 16..IP + 20] }

  /** Where the UDP header is: behind as many words as the IPv4 header says it has. */
  function UdpAt(b: seq<Byte>): (u: nat)
    requires |b| >= 100
    ensures IP <= u <= IP + 60
  { IP + (b[IP] % 16) * 4 }

  function Sport(b: seq<Byte>): Word
    requires |b| >= 100
  { Net(b[UdpAt(b)], b[UdpAt(b) + 1]) }

  function Dport(b: seq<Byte>): Word
    requires |b| >= 100
  { Net(b[UdpAt(b) + 2], b[UdpAt(b) + 3]) }

  function UdpLen(b: seq<Byte>): Word
    requires |b| >= 100
  { Net(b[UdpAt(b) + 4], b[UdpAt(b) + 5]) }

  /** The payload's length, computed in 16 bits. */
  function PayloadLen(b: seq<Byte>): Word
    requires |b| >= 100
  { (UdpLen(b) - 8) % 0x1_0000 }

  /** The filter of the server's loop, for a buffer into which `n` bytes were received; anything
      behind them is left over from before. */
  predicate ServerAccepts(b: seq<Byte>, n: nat, serverIp: seq<Byte>)
    requires |b| == BUF_SIZE
  {
    && n >= UdpAt(b) + 8
    && EtherType(b) == 0x0800 && Protocol(b) == 17 && Daddr(b) == serverIp && Dport(b) == SERVER_PORT
    && n >= UdpAt(b) + UdpLen(b)
    && PayloadLen(b) > 0
  }

  /** Where the server ends the payload with a NUL, inside its buffer in any case. */
  function PayloadEnd(b: seq<Byte>): (e: nat)
    requires |b| == BUF_SIZE
    ensures e < BUF_SIZE
  {
    var room := BUF_SIZE - (UdpAt(b) + 8) - 1;
    UdpAt(b) + 8 + (if PayloadLen(b) < room then PayloadLen(b) else room)
  }

  /** What the server makes of its buffer. */
  function ServerReads(b: seq<Byte>, n: nat, serverIp: seq<Byte>): Option<Request>
    requires |b| == BUF_SIZE
  {
    if ServerAccepts(b, n, serverIp)
    then Some(Request(Path(b[0..6], b[6..12], Saddr(b), Daddr(b), Sport(b), Dport(b)),
                      StringAt(b[PayloadEnd(b) := 0], UdpAt(b) + 8)))
    else None
  }

  /** The filter of the client's receiver thread. */
  predicate ClientAccepts(b: seq<Byte>, clientIp: seq<Byte>, serverIp: seq<Byte>)
    requires |b| == MAX_INPUT_SIZE
  {
    && EtherType(b) == 0x0800 && Protocol(b) == 17 && Daddr(b) == clientIp && Saddr(b) == serverIp
    && Dport(b) == CLIENT_PORT && Sport(b) == SERVER_PORT
  }

  /** What a client does with the frame in its buffer. It ends the payload with a NUL where the
      UDP length says, without looking where that is: `Overrun` is a write behind its buffer. */
  datatype Reading = Ignored | Overrun | Printed(text: seq<Byte>)

  function ClientReads(b: seq<Byte>, clientIp: seq<Byte>, serverIp: seq<Byte>): Reading
    requires |b| == MAX_INPUT_SIZE
  {
    var end := UdpAt(b) + 8 + PayloadLen(b);
    if !ClientAccepts(b, clientIp, serverIp) then Ignored
    else if end >= MAX_INPUT_SIZE then Overrun
    else Printed(StringAt(b[end := 0], UdpAt(b) + 8))
  }

  // ----- what is built is what is read

  ghost predicate IsText(s: seq<Byte>) {
    forall i :: 0 <= i < |s| ==> s[i] != 0
  }

  /** `b` is a receive buffer that starts with the frame `f`. */
  ghost predicate Received(b: seq<Byte>, f: seq<Byte>) {
    |f| <= |b| && b[..|f|] == f
  }

  /** `b` is a receive buffer into which the frame `f` came, cut off where the buffer ends. */
  ghost predicate Holds(b: seq<Byte>, f: seq<Byte>) {
    var n := if |f| <= |b| then |f| else |b|;
    b[..n] == f[..n]
  }

  lemma SliceOfSlice(b: seq<Byte>, lo: nat, hi: nat, i: nat, j: nat)
    requires lo <= hi <= |b| && i <= j <= hi - lo
    ensures b[lo..hi][i..j] == b[lo + i..lo + j]
  {
    var c := b[lo..hi];
    forall k | 0 <= k < j - i ensures c[i..j][k] == b[lo + i..lo + j][k] {
      assert c[i + k] == b[lo + i + k];
    }
  }

  lemma FrameFields(p: Path, payload: seq<Byte>)
    requires IsPath(p) && |payload| <= 1000
    ensures var f := Frame(p, payload);
            && f[..IP] == EtherHeader(p) && f[IP..UDP] == IpHeader(p, 28 + |payload|)
            && f[UDP..PAYLOAD] == UdpHeader(p, 8 + |payload|) && f[PAYLOAD..] == payload
  {
  }

  /** The headers of a frame that was received, whole or cut off behind them. */
  lemma HeadersOfFrame(b: seq<Byte>, p: Path, payload: seq<Byte>)
    requires IsPath(p) && |payload| <= 1000 && |b| >= PAYLOAD && Holds(b, Frame(p, payload))
    ensures b[..IP] == EtherHeader(p) && b[IP..UDP] == IpHeader(p, 28 + |payload|)
    ensures b[UDP..PAYLOAD] == UdpHeader(p, 8 + |payload|)
  {
    var f := Frame(p, payload);
    FrameFields(p, payload);
    var n := if |f| <= |b| then |f| else |b|;
    assert forall k :: 0 <= k < n ==> b[..n][k] == b[k] && f[..n][k] == f[k];
    assert forall k :: 0 <= k < PAYLOAD ==> b[k] == f[k];
    assert b[..IP] == f[..IP] && b[IP..UDP] == f[IP..UDP] && b[UDP..PAYLOAD] == f[UDP..PAYLOAD];
  }

  lemma PrefixSlice(b: seq<Byte>, f: seq<Byte>, i: nat, j: nat)
    requires Received(b, f) && i <= j <= |f|
    ensures b[i..j] == f[i..j]
  {
    assert forall k :: 0 <= k < |f| ==> f[k] == b[..|f|][k];
  }

  lemma EtherFields(b: seq<Byte>, p: Path)
    requires IsPath(p) && |b| >= IP && b[..IP] == EtherHeader(p)
    ensures Net(b[12], b[13]) == 0x0800 && b[0..6] == p.dmac && b[6..12] == p.smac
  {
    assert b[..IP][12] == b[12] && b[..IP][13] == b[13];
    assert b[..IP][0..6] == b[0..6] && b[..IP][6..12] == b[6..12];
  }

  lemma IpFields(b: seq<Byte>, p: Path, total: Word)
    requires IsPath(p) && |b| >= UDP && b[IP..UDP] == IpHeader(p, total)
    ensures b[IP] % 16 == 5 && b[IP + 9] == 17
    ensures b[IP + 12..IP + 16] == p.saddr && b[IP + 16..IP + 20] == p.daddr
    ensures Net(b[IP + 2], b[IP + 3]) == total
  {
    var h := b[IP..UDP];
    assert h[0] == b[IP] && h[9] == b[IP + 9] && h[2] == b[IP + 2] && h[3] == b[IP + 3];
    SliceOfSlice(b, IP, UDP, 12, 16);
    SliceOfSlice(b, IP, UDP, 16, 20);
    assert h[12..16] == p.saddr && h[16..20] == p.daddr;
  }

  lemma UdpFields(b: seq<Byte>, p: Path, len: Word)
    requires |b| >= PAYLOAD && b[UDP..PAYLOAD] == UdpHeader(p, len)
    ensures Net(b[UDP], b[UDP + 1]) == p.sport && Net(b[UDP + 2], b[UDP + 3]) == p.dport
    ensures Net(b[UDP + 4], b[UDP + 5]) == len
  {
    var h := b[UDP..PAYLOAD];
    assert forall i :: 0 <= i < 8 ==> h[i] == b[UDP + i];
  }

  /** The headers in `b` read as those of a frame from and to `p` with `len` bytes of payload. */
  ghost predicate HasHeaders(b: seq<Byte>, p: Path, len: nat) {
    && |b| >= 100 && EtherType(b) == 0x0800 && Protocol(b) == 17 && Saddr(b) == p.saddr && Daddr(b) == p.daddr
    && b[0..6] == p.dmac && b[6..12] == p.smac
    && UdpAt(b) == UDP && Sport(b) == p.sport && Dport(b) == p.dport
    && UdpLen(b) == 8 + len && PayloadLen(b) == len
  }

  lemma HeaderFields(b: seq<Byte>, p: Path, total: Word, len: Word)
    requires IsPath(p) && |b| >= 100 && b[..IP] == EtherHeader(p)
    requires b[IP..UDP] == IpHeader(p, total) && b[UDP..PAYLOAD] == UdpHeader(p, len)
    ensures EtherType(b) == 0x0800 && Protocol(b) == 17 && Saddr(b) == p.saddr && Daddr(b) == p.daddr
    ensures b[0..6] == p.dmac && b[6..12] == p.smac
    ensures UdpAt(b) == UDP && Sport(b) == p.sport && Dport(b) == p.dport && UdpLen(b) == len
  {
    EtherFields(b, p);
    IpFields(b, p, total);
    UdpFields(b, p, len);
  }

  /** Every field of a received frame reads as it was written. */
  lemma FieldsOfFrame(b: seq<Byte>, p: Path, payload: seq<Byte>)
    requires IsPath(p) && |payload| <= 1000 && |b| >= 100 && Holds(b, Frame(p, payload))
    ensures HasHeaders(b, p, |payload|)
  {
    HeadersOfFrame(b, p, payload);
    HeaderFields(b, p, 28 + |payload|, 8 + |payload|);
  }

  /** `b` holds a whole frame from and to `p`: its headers read so, and the payload follows them. */
  ghost predicate Carries(b: seq<Byte>, p: Path, payload: seq<Byte>) {
    && PAYLOAD + |payload| <= |b| && HasHeaders(b, p, |payload|)
    && b[PAYLOAD..PAYLOAD + |payload|] == payload
  }

  lemma FrameIsCarried(b: seq<Byte>, p: Path, payload: seq<Byte>)
    requires IsPath(p) && |payload| <= 1000 && |b| >= 100 && Received(b, Frame(p, payload))
    ensures Carries(b, p, payload)
  {
    FieldsOfFrame(b, p, payload);
    FrameFields(p, payload);
    PrefixSlice(b, Frame(p, payload), PAYLOAD, PAYLOAD + |payload|);
    assert Frame(p, payload)[PAYLOAD..PAYLOAD + |payload|] == payload;
  }

  /** The payload, ended with a NUL, is the C string behind the headers. */
  lemma PayloadCarried(b: seq<Byte>, p: Path, payload: seq<Byte>)
    requires Carries(b, p, payload) && IsText(payload) && PAYLOAD + |payload| < |b|
    ensures StringAt(b[PAYLOAD + |payload| := 0], PAYLOAD) == payload
  {
    var end := PAYLOAD + |payload|;
    assert b[end := 0][PAYLOAD..end] == b[PAYLOAD..end];
    StringAtIs(b[end := 0], PAYLOAD, payload);
  }

  lemma {:induction false} StringAtIs(b: seq<Byte>, off: nat, s: seq<Byte>)
    requires off + |s| < |b| && b[off..off + |s|] == s && IsText(s) && b[off + |s|] == 0
    ensures StringAt(b, off) == s
    decreases |s|
  {
    if s != [] {
      assert b[off] == s[0];
      assert b[off + 1..off + 1 + |s[1..]|] == s[1..];
      StringAtIs(b, off + 1, s[1..]);
    }
  }

  /** The server accepts every client frame that fits its buffer, and reads the same payload and path. */
  lemma ServerReadsFrame(b: seq<Byte>, p: Path, payload: seq<Byte>)
    requires p.dport == SERVER_PORT && |b| == BUF_SIZE && Carries(b, p, payload)
    requires payload != [] && IsText(payload) && PAYLOAD + |payload| < BUF_SIZE
    ensures ServerReads(b, PAYLOAD + |payload|, p.daddr) == Some(Request(p, payload))
  {
    PayloadCarried(b, p, payload);
  }

  /** A client accepts every server frame. It prints the same payload if that fits its buffer
      together with the headers and a NUL; for every longer one it writes behind its buffer. */
  lemma ClientReadsFrame(b: seq<Byte>, p: Path, payload: seq<Byte>)
    requires IsPath(p) && p.sport == SERVER_PORT && p.dport == CLIENT_PORT && |b| == MAX_INPUT_SIZE
    requires |payload| <= 1000 && Holds(b, Frame(p, payload))
    ensures IsText(payload) && PAYLOAD + |payload| < MAX_INPUT_SIZE ==>
              ClientReads(b, p.daddr, p.saddr) == Printed(payload)
    ensures PAYLOAD + |payload| >= MAX_INPUT_SIZE ==> ClientReads(b, p.daddr, p.saddr) == Overrun
  {
    FieldsOfFrame(b, p, payload);
    if IsText(payload) && PAYLOAD + |payload| < MAX_INPUT_SIZE {
      assert Frame(p, payload)[..PAYLOAD + |payload|] == Frame(p, payload);
      FrameIsCarried(b, p, payload);
      PayloadCarried(b, p, payload);
    }
  }

  /** Both length fields agree with the frame, and its IPv4 header is intact. */
  lemma LengthsAndChecksum(p: Path, payload: seq<Byte>)
    requires IsPath(p) && |payload| <= 1000
    ensures var f := Frame(p, payload);
            && Net(f[IP + 2], f[IP + 3]) == |f| - IP
            && Net(f[UDP + 4], f[UDP + 5]) == |f| - UDP
            && Intact(f[IP..UDP])
  {
    var f := Frame(p, payload);
    FrameFields(p, payload);
    IpFields(f, p, 28 + |payload|);
    UdpFields(f, p, 8 + |payload|);
    ChecksumMakesIntact(RawIpHeader(p, 28 + |payload|));
  }

  /** The frame byte by byte, but for the checksum. */
  lemma FrameLayout(p: Path, payload: seq<Byte>)
    requires IsPath(p) && |payload| <= 1000
    ensures var f := Frame(p, payload);
            && f[0..6] == p.dmac && f[6..12] == p.smac && f[12..14] == [0x08, 0x00]
            && f[14..16] == [0x45, 0] && f[18..24] == [0, 0, 0, 0, 64, 17]
            && f[26..30] == p.saddr && f[30..34] == p.daddr
            && f[34..36] == [p.sport / 256, p.sport % 256] && f[36..38] == [p.dport / 256, p.dport % 256]
            && f[40..42] == [0, 0]
            && f[42..] == payload
  {
    FrameFields(p, payload);
    var f := Frame(p, payload);
    SliceOfSlice(f, 14, 34, 0, 2);
    SliceOfSlice(f, 14, 34, 4, 10);
    SliceOfSlice(f, 14, 34, 12, 16);
    SliceOfSlice(f, 14, 34, 16, 20);
    SliceOfSlice(f, 34, 42, 0, 2);
    SliceOfSlice(f, 34, 42, 2, 4);
    SliceOfSlice(f, 34, 42, 6, 8);
    IpHeaderLayout(p, 28 + |payload|);
  }

  lemma IpHeaderLayout(p: Path, total: Word)
    requires IsPath(p)
    ensures var h := IpHeader(p, total);
            && h[0..2] == [0x45, 0] && h[4..10] == [0, 0, 0, 0, 64, 17] && h[12..16] == p.saddr && h[16..20] == p.daddr
  {
    var h, raw := IpHeader(p, total), RawIpHeader(p, total);
    assert forall i :: 0 <= i < 20 && i != 10 && i != 11 ==> h[i] == raw[i];
    assert h[0..2] == raw[0..2] && h[4..10] == raw[4..10] && h[12..16] == raw[12..16] && h[16..20] == raw[16..20];
  }

  /** The reply goes back where the request came from: all six addresses are exchanged. */
  lemma ReplySwaps(p: Path, payload: seq<Byte>, reply: seq<Byte>)
    requires IsPath(p) && |payload| <= 1000 && |reply| <= 1000
    ensures var f, g := Frame(p, payload), Frame(Back(p), reply);
            && g[0..6] == f[6..12] && g[6..12] == f[0..6]
            && g[26..30] == f[30..34] && g[30..34] == f[26..30]
            && g[34..36] == f[36..38] && g[36..38] == f[34..36]
  {
    FrameLayout(p, payload);
    FrameLayout(Back(p), reply);
  }

  /** The server takes exactly the frames that are for its address and port 9999 and are not empty. */
  lemma ServerTakesIff(b: seq<Byte>, p: Path, len: nat, serverIp: seq<Byte>)
    requires |b| == BUF_SIZE && HasHeaders(b, p, len)
    ensures ServerReads(b, PAYLOAD + len, serverIp).Some? <==> p.daddr == serverIp && p.dport == 9999 && len > 0
  {
  }

  /** Whatever the server takes is IPv4 and UDP, has a payload, and came whole. */
  lemma ServerTakesOnly(b: seq<Byte>, n: nat, serverIp: seq<Byte>)
    requires |b| == BUF_SIZE && ServerReads(b, n, serverIp).Some?
    ensures b[12..14] == [0x08, 0x00] && b[23] == 17 && b[30..34] == serverIp
    ensures var u := 14 + (b[14] % 16) * 4;
            b[u + 2] == 0x27 && b[u + 3] == 0x0F && n >= u + 8 && n >= u + Net(b[u + 4], b[u + 5]) != u + 8
  {
    NetIs(b[12], b[13], 0x08, 0x00);
    NetIs(b[UdpAt(b) + 2], b[UdpAt(b) + 3], 0x27, 0x0F);
  }

  lemma NetIs(b0: Byte, b1: Byte, c0: Byte, c1: Byte)
    requires Net(b0, b1) == Net(c0, c1)
    ensures b0 == c0 && b1 == c1
  {
  }

  /** A client takes exactly the frames from its server's address and port 9999 to its own and port 7777. */
  lemma ClientTakesIff(b: seq<Byte>, p: Path, len: nat, clientIp: seq<Byte>, serverIp: seq<Byte>)
    requires |b| == MAX_INPUT_SIZE && HasHeaders(b, p, len)
    ensures ClientReads(b, clientIp, serverIp) != Ignored <==>
            p.saddr == serverIp && p.daddr == clientIp && p.sport == 9999 && p.dport == 7777
  {
  }

  // ----- one exchange

  /** "%s %d" of the payload and the counter. */
  function ReplyText(payload: seq<Byte>, counter: nat): (text: seq<Byte>)
    ensures |text| == |payload| + 1 + |Decimal(counter)|
    ensures counter < 0x8000_0000 ==> |text| <= |payload| + 11
  {
    assert counter < 0x8000_0000 ==> |Decimal(counter)| <= 10 by {
      if counter < 0x8000_0000 {
        ShortText(counter);
      }
    }
    payload + [' ' as int] + Bytes(Decimal(counter))
  }

  function Bytes(s: string): (b: seq<Byte>)
    requires forall c :: c in s ==> IsDigit(c)
    ensures |b| == |s| && IsText(b)
  {
    if s == "" then [] else assert IsDigit(s[0]); [s[0] as int] + Bytes(s[1..])
  }

  lemma ReplyIsText(payload: seq<Byte>, counter: nat)
    requires IsText(payload)
    ensures IsText(ReplyText(payload, counter))
  {
    var d := Bytes(Decimal(counter));
    forall i | 0 <= i < |ReplyText(payload, counter)| ensures ReplyText(payload, counter)[i] != 0 {
      assert i > |payload| ==> ReplyText(payload, counter)[i] == d[i - |payload| - 1];
    }
  }

  /** The value of decimal digits. */
  function Value(digits: seq<Byte>): int {
    if digits == [] then 0 else 10 * Value(digits[..|digits| - 1]) + digits[|digits| - 1] - 48
  }

  lemma {:induction false} BytesConcat(a: string, b: string)
    requires forall c :: c in a + b ==> IsDigit(c)
    ensures (forall c :: c in a ==> IsDigit(c)) && (forall c :: c in b ==> IsDigit(c))
    ensures Bytes(a + b) == Bytes(a) + Bytes(b)
  {
    assert forall c :: c in a || c in b ==> c in a + b;
    if a == "" {
      assert a + b == b;
    } else {
      assert (a + b)[0] == a[0] && (a + b)[1..] == a[1..] + b;
      BytesConcat(a[1..], b);
    }
  }

  lemma {:induction false} BytesOfDecimal(n: nat)
    ensures Value(Bytes(Decimal(n))) == n && forall b :: b in Bytes(Decimal(n)) ==> 48 <= b <= 57
  {
    var last := [Digit(n % 10)];
    assert Bytes(last) == [48 + n % 10] by {
      assert last[1..] == "";
    }
    if n < 10 {
      assert Decimal(n) == last;
      assert [48 + n % 10][..0] == [];
    } else {
      BytesOfDecimal(n / 10);
      BytesConcat(Decimal(n / 10), last);
      var all := Bytes(Decimal(n));
      assert all[..|all| - 1] == Bytes(Decimal(n / 10));
    }
  }

  /** A reply is the text, a blank, and digits that say the counter. */
  lemma ReplySays(payload: seq<Byte>, counter: nat)
    ensures var text, k := ReplyText(payload, counter), |payload|;
            && |text| > k && text[..k] == payload && text[k] == 32
            && (forall i :: k < i < |text| ==> 48 <= text[i] <= 57) && Value(text[k + 1..]) == counter
  {
    var text, k, d := ReplyText(payload, counter), |payload|, Bytes(Decimal(counter));
    assert text[k + 1..] == d;
    BytesOfDecimal(counter);
    forall i | k < i < |text| ensures 48 <= text[i] <= 57 {
      assert text[i] == d[i - k - 1] && d[i - k - 1] in d;
    }
  }

  /** What the server sends for a reply text: snprintf leaves its first 255 characters and a NUL in
      the buffer but returns its whole length, and memcpy takes that many bytes, if need be from
      what lies `behind` the buffer in memory. */
  function SentText(text: seq<Byte>, behind: seq<Byte>): (sent: seq<Byte>)
    requires |text| <= REPLY_SIZE + |behind|
    ensures |sent| == |text|
  {
    if |text| < REPLY_SIZE then text else (text[..REPLY_SIZE - 1] + [0] + behind)[..|text|]
  }

  /** The server sends exactly the reply text if and only if that fits its buffer. */
  lemma SentTextIff(text: seq<Byte>, behind: seq<Byte>)
    requires IsText(text) && |text| <= REPLY_SIZE + |behind|
    ensures SentText(text, behind) == text <==> |text| < REPLY_SIZE
  {
    if |text| >= REPLY_SIZE {
      assert SentText(text, behind)[REPLY_SIZE - 1] == 0;
    }
  }

  /** The same for a reply, in terms of the text received and the counter. */
  lemma ReplySentIff(payload: seq<Byte>, counter: nat, behind: seq<Byte>)
    requires IsText(payload) && |ReplyText(payload, counter)| <= REPLY_SIZE + |behind|
    ensures SentText(ReplyText(payload, counter), behind) == ReplyText(payload, counter) <==>
            |payload| + 1 + |Decimal(counter)| < REPLY_SIZE
  {
    ReplyIsText(payload, counter);
    SentTextIff(ReplyText(payload, counter), behind);
  }

  /** Whether headers, text, blank, counter and a NUL fit the client's buffer. */
  predicate Prints(text: seq<Byte>, counter: nat) {
    PAYLOAD + |text| + 1 + |Decimal(counter)| < MAX_INPUT_SIZE
  }

  /** From a client's input to what it prints: the server sees the text typed; and the client
      prints that text, a blank and the counter exactly if they fit its buffer behind the headers,
      and otherwise writes behind it. */
  lemma Exchange(p: Path, text: seq<Byte>, counter: nat, behind: seq<Byte>, atServer: seq<Byte>, atClient: seq<Byte>)
    requires IsPath(p) && p.sport == CLIENT_PORT && p.dport == SERVER_PORT
    requires text != [] && IsText(text) && PAYLOAD + |text| < BUF_SIZE
    requires |atServer| == BUF_SIZE && Received(atServer, Frame(p, text))
    requires counter < 0x8000_0000 && |behind| == BUF_SIZE && |atClient| == MAX_INPUT_SIZE
    requires Holds(atClient, Frame(Back(p), SentText(ReplyText(text, counter), behind)))
    ensures ServerReads(atServer, |Frame(p, text)|, p.daddr) == Some(Request(p, text))
    ensures ClientReads(atClient, p.saddr, p.daddr) ==
            if Prints(text, counter) then Printed(ReplyText(text, counter)) else Overrun
  {
    FrameIsCarried(atServer, p, text);
    ServerReadsFrame(atServer, p, text);
    ReplyIsText(text, counter);
    ClientReadsFrame(atClient, Back(p), SentText(ReplyText(text, counter), behind));
  }

  // ----- reading a frame in its buffer

  /** The filter of the server's receive loop. */
  method ServerFilter(buf: array<Byte>, n: nat, serverIp: seq<Byte>, order: ByteOrder) returns (ok: bool)
    requires buf.Length == BUF_SIZE
    ensures ok <==> ServerAccepts(buf[..], n, serverIp)
  {
    var udp := IP + (buf[IP] % 16) * 4;
    if n < udp + 8 {
      return false;
    }
    var etherType := Get16(buf, 12, order);
    if etherType != 0x0800 || buf[IP + 9] != 17 || buf[IP + 16..IP + 20] != serverIp {
      return false;
    }
    var dport := Get16(buf, udp + 2, order);
    if dport != SERVER_PORT {
      return false;
    }
    var udpLen: int := Get16(buf, udp + 4, order);
    ok := n >= udp + udpLen && (udpLen - 8) % 0x1_0000 > 0;
  }

  /** What passes the filter: the loop ends the payload with a NUL in the buffer. */
  method ServerReceive(buf: array<Byte>, n: nat, serverIp: seq<Byte>, order: ByteOrder) returns (r: Option<Request>)
    requires buf.Length == BUF_SIZE
    modifies buf
    ensures r == ServerReads(old(buf[..]), n, serverIp)
  {
    var ok := ServerFilter(buf, n, serverIp, order);
    if !ok {
      return None;
    }
    var udp := IP + (buf[IP] % 16) * 4;
    var sport := Get16(buf, udp, order);
    var dport := Get16(buf, udp + 2, order);
    var udpLen: int := Get16(buf, udp + 4, order);
    var payloadLen: int := (udpLen - 8) % 0x1_0000;
    var path := Path(buf[0..6], buf[6..12], buf[IP + 12..IP + 16], buf[IP + 16..IP + 20], sport, dport);
    var room := BUF_SIZE - (udp + 8) - 1;
    var safe := if payloadLen < room then payloadLen else room;
    buf[udp + 8 + safe] := 0;
    var payload := ReadString(buf, udp + 8);
    r := Some(Request(path, payload));
  }

  /** The filter of the client's receiver thread. */
  method ClientReceive(buf: array<Byte>, clientIp: seq<Byte>, serverIp: seq<Byte>, order: ByteOrder)
    returns (r: Reading)
    requires buf.Length == MAX_INPUT_SIZE
    modifies buf
    ensures r == ClientReads(old(buf[..]), clientIp, serverIp)
  {
    var etherType := Get16(buf, 12, order);
    if etherType != 0x0800 || buf[IP + 9] != 17 {
      return Ignored;
    }
    if buf[IP + 16..IP + 20] != clientIp || buf[IP + 12..IP + 16] != serverIp {
      return Ignored;
    }
    var udp := IP + (buf[IP] % 16) * 4;
    var dport := Get16(buf, udp + 2, order);
    var sport := Get16(buf, udp, order);
    if dport != CLIENT_PORT || sport != SERVER_PORT {
      return Ignored;
    }
    var udpLen: int := Get16(buf, udp + 4, order);
    var payloadLen: int := (udpLen - 8) % 0x1_0000;
    if udp + 8 + payloadLen >= MAX_INPUT_SIZE {
      return Overrun;
    }
    buf[udp + 8 + payloadLen] := 0;
    var text := ReadString(buf, udp + 8);
    r := Printed(text);
  }

  /** ntohs of a uint16_t field. */
  method Get16(buf: array<Byte>, off: nat, order: ByteOrder) returns (w: Word)
    requires off + 2 <= buf.Length
    ensures w == Net(buf[off], buf[off + 1])
  {
    w := Ntohs(order, Load(order, buf[off], buf[off + 1]));
    NtohsOfLoad(order, buf[off], buf[off + 1]);
  }

  method ReadString(buf: array<Byte>, off: nat) returns (s: seq<Byte>)
    requires off <= buf.Length
    ensures s == StringAt(buf[..], off)
  {
    s := [];
    var i := off;
    while i < buf.Length && buf[i] != 0
      invariant off <= i <= buf.Length
      invariant s + StringAt(buf[..], i) == StringAt(buf[..], off)
    {
      s := s + [buf[i]];
      i := i + 1;
    }
    assert s + [] == s;
  }

  lemma RequestIsPath(b: seq<Byte>, n: nat, serverIp: seq<Byte>)
    requires |b| == BUF_SIZE
    ensures ServerReads(b, n, serverIp).Some? ==> IsPath(ServerReads(b, n, serverIp).value.path)
  {
  }

  // ----- building a frame in its buffer

  /** Assigning htons(w) to a uint16_t field. */
  method Put16(buf: array<Byte>, off: nat, w: Word, order: ByteOrder)
    requires off + 2 <= buf.Length
    modifies buf
    ensures buf[..] == old(buf[..])[off := w / 0x100][off + 1 := w % 0x100]
  {
    var (b0, b1) := Store(order, Ntohs(order, w));
    StoreOfHtons(order, w);
    buf[off], buf[off + 1] := b0, b1;
  }

  /** Only b[lo..hi] may differ. */
  ghost predicate Outside(b: seq<Byte>, b': seq<Byte>, lo: nat, hi: nat) {
    |b| == |b'| && forall i :: 0 <= i < |b| && !(lo <= i < hi) ==> b'[i] == b[i]
  }

  /** memcpy, or the assignment of an address field. */
  method Copy(buf: array<Byte>, off: nat, bytes: seq<Byte>)
    requires off + |bytes| <= buf.Length
    modifies buf
    ensures Outside(old(buf[..]), buf[..], off, off + |bytes|)
    ensures buf[off..off + |bytes|] == bytes
  {
    for i := 0 to |bytes|
      invariant Outside(old(buf[..]), buf[..], off, off + |bytes|)
      invariant forall k :: 0 <= k < i ==> buf[off + k] == bytes[k]
    {
      buf[off + i] := bytes[i];
    }
  }

  lemma OutsideSlice(b: seq<Byte>, b': seq<Byte>, lo: nat, hi: nat, i: nat, j: nat)
    requires Outside(b, b', lo, hi) && i <= j <= |b| && (j <= lo || hi <= i)
    ensures b'[i..j] == b[i..j]
  {
  }

  method WriteEther(buf: array<Byte>, p: Path, order: ByteOrder)
    requires IsPath(p) && buf.Length >= IP
    modifies buf
    ensures Outside(old(buf[..]), buf[..], 0, IP) && buf[..IP] == EtherHeader(p)
  {
    Copy(buf, 0, p.dmac);
    ghost var b1 := buf[..];
    Copy(buf, 6, p.smac);
    ghost var b2 := buf[..];
    OutsideSlice(b1, b2, 6, 12, 0, 6);
    Put16(buf, 12, 0x0800, order);
    assert buf[..IP] == b2[0..6] + b2[6..12] + [0x08, 0x00];
  }

  /** An IPv4 header complete but for its length and its checksum. */
  ghost predicate IpPrepared(h: seq<Byte>, p: Path)
    requires IsPath(p)
  {
    |h| == 20 && h[2 := 0][3 := 0][10 := 0][11 := 0] == RawIpHeader(p, 0)
  }

  method WriteIp(buf: array<Byte>, p: Path, order: ByteOrder)
    requires IsPath(p) && buf.Length >= UDP
    modifies buf
    ensures Outside(old(buf[..]), buf[..], IP, UDP) && IpPrepared(buf[IP..UDP], p)
  {
    buf[IP], buf[IP + 1] := 0x45, 0;
    Put16(buf, IP + 4, 0, order);
    Put16(buf, IP + 6, 0, order);
    buf[IP + 8], buf[IP + 9] := 64, 17;
    ghost var fixed := buf[..];
    WriteAddresses(buf, p.saddr, p.daddr);
    OutsideSlice(fixed, buf[..], IP + 12, UDP, IP, IP + 12);
    IpFixed(fixed[IP..IP + 12], p);
    assert buf[IP..UDP] == buf[IP..IP + 12] + buf[IP + 12..UDP];
    assert buf[IP..UDP] == fixed[IP..IP + 12] + (p.saddr + p.daddr);
  }

  lemma IpFixed(h: seq<Byte>, p: Path)
    requires IsPath(p) && |h| == 12
    requires h[0] == 0x45 && h[1] == 0 && (forall i :: 4 <= i < 8 ==> h[i] == 0) && h[8] == 64 && h[9] == 17
    ensures IpPrepared(h + (p.saddr + p.daddr), p)
  {
    var full := h + (p.saddr + p.daddr);
    assert full[2 := 0][3 := 0][10 := 0][11 := 0] == h[2 := 0][3 := 0][10 := 0][11 := 0] + (p.saddr + p.daddr);
    assert h[2 := 0][3 := 0][10 := 0][11 := 0] == [0x45, 0, 0, 0, 0, 0, 0, 0, 64, 17, 0, 0];
  }

  method WriteAddresses(buf: array<Byte>, saddr: seq<Byte>, daddr: seq<Byte>)
    requires |saddr| == |daddr| == 4 && buf.Length >= UDP
    modifies buf
    ensures Outside(old(buf[..]), buf[..], IP + 12, UDP) && buf[IP + 12..UDP] == saddr + daddr
  {
    Copy(buf, IP + 12, saddr);
    ghost var b1 := buf[..];
    Copy(buf, IP + 16, daddr);
    OutsideSlice(b1, buf[..], IP + 16, UDP, IP + 12, IP + 16);
    assert buf[IP + 12..UDP] == buf[IP + 12..IP + 16] + buf[IP + 16..IP + 20];
  }

  /** tot_len, then the checksum over the header with a zero checksum field. */
  method SealIp(buf: array<Byte>, p: Path, total: Word, order: ByteOrder)
    requires IsPath(p) && buf.Length >= UDP && IpPrepared(buf[IP..UDP], p)
    modifies buf
    ensures Outside(old(buf[..]), buf[..], IP, UDP) && buf[IP..UDP] == IpHeader(p, total)
    ensures IpPrepared(buf[IP..UDP], p)
  {
    Put16(buf, IP + 2, total, order);
    Put16(buf, IP + 10, 0, order);
    ghost var raw := RawIpHeader(p, total);
    assert buf[IP..UDP] == raw by {
      forall i | 0 <= i < 20 ensures buf[IP..UDP][i] == raw[i] {
        assert old(buf[IP..UDP])[2 := 0][3 := 0][10 := 0][11 := 0][i] == RawIpHeader(p, 0)[i];
      }
    }
    var _, stored, _ := IpChecksum(buf[IP..UDP], order);
    buf[IP + 10], buf[IP + 11] := stored[0], stored[1];
    assert buf[IP..UDP] == WithChecksum(raw, Checksum(raw));
  }

  /** A UDP header complete but for its length. */
  ghost predicate UdpPrepared(h: seq<Byte>, p: Path) {
    |h| == 8 && h[4 := 0][5 := 0] == UdpHeader(p, 0)
  }

  method WriteUdp(buf: array<Byte>, p: Path, order: ByteOrder)
    requires buf.Length >= PAYLOAD
    modifies buf
    ensures Outside(old(buf[..]), buf[..], UDP, PAYLOAD) && UdpPrepared(buf[UDP..PAYLOAD], p)
  {
    Put16(buf, UDP, p.sport, order);
    Put16(buf, UDP + 2, p.dport, order);
    Put16(buf, UDP + 6, 0, order);
  }

  method SealUdp(buf: array<Byte>, p: Path, len: Word, order: ByteOrder)
    requires buf.Length >= PAYLOAD && UdpPrepared(buf[UDP..PAYLOAD], p)
    modifies buf
    ensures Outside(old(buf[..]), buf[..], UDP, PAYLOAD) && buf[UDP..PAYLOAD] == UdpHeader(p, len)
    ensures UdpPrepared(buf[UDP..PAYLOAD], p)
  {
    Put16(buf, UDP + 4, len, order);
    forall i | 0 <= i < 8 ensures buf[UDP..PAYLOAD][i] == UdpHeader(p, len)[i] {
      assert old(buf[UDP..PAYLOAD])[4 := 0][5 := 0][i] == UdpHeader(p, 0)[i];
    }
  }

  lemma Assemble(b: seq<Byte>, p: Path, payload: seq<Byte>)
    requires IsPath(p) && |payload| <= 1000 && |b| >= PAYLOAD + |payload|
    requires b[..IP] == EtherHeader(p) && b[IP..UDP] == IpHeader(p, 28 + |payload|)
    requires b[UDP..PAYLOAD] == UdpHeader(p, 8 + |payload|) && b[PAYLOAD..PAYLOAD + |payload|] == payload
    ensures Received(b, Frame(p, payload))
  {
    assert b[..PAYLOAD + |payload|] == b[..IP] + b[IP..UDP] + b[UDP..PAYLOAD] + b[PAYLOAD..PAYLOAD + |payload|];
  }

  ghost predicate Prepared(b: seq<Byte>, p: Path)
    requires IsPath(p)
  {
    |b| >= PAYLOAD && b[..IP] == EtherHeader(p) && IpPrepared(b[IP..UDP], p) && UdpPrepared(b[UDP..PAYLOAD], p)
  }

  /** The headers that the client's `main` fills in once, and the server for every reply. */
  method WriteHeaders(packet: array<Byte>, p: Path, order: ByteOrder)
    requires IsPath(p) && packet.Length == BUF_SIZE
    modifies packet
    ensures Prepared(packet[..], p)
  {
    WriteEther(packet, p, order);
    ghost var b1 := packet[..];
    WriteIp(packet, p, order);
    ghost var b2 := packet[..];
    WriteUdp(packet, p, order);
    OutsideSlice(b1, b2, IP, UDP, 0, IP);
    OutsideSlice(b2, packet[..], UDP, PAYLOAD, 0, IP);
    OutsideSlice(b2, packet[..], UDP, PAYLOAD, IP, UDP);
  }

  /** What `sender_thread` writes for one line of input, into the packet used for every line. */
  method FillClientPacket(packet: array<Byte>, p: Path, input: seq<Byte>, order: ByteOrder) returns (length: nat)
    requires IsPath(p) && packet.Length == BUF_SIZE && Prepared(packet[..], p) && |input| < MAX_INPUT_SIZE
    modifies packet
    ensures length == PAYLOAD + |input| && Received(packet[..], Frame(p, input))
    ensures Prepared(packet[..], p)
  {
    SealHeaders(packet, p, |input|, order);
    ghost var b1 := packet[..];
    Copy(packet, PAYLOAD, input + [0]);
    length := PAYLOAD + |input|;
    HeadersKept(b1, packet[..], p, |input|);
    SliceOfSlice(packet[..], PAYLOAD, PAYLOAD + |input| + 1, 0, |input|);
    Assemble(packet[..], p, input);
  }

  /** Everything in the headers that depends on the length of the payload. */
  method SealHeaders(packet: array<Byte>, p: Path, n: nat, order: ByteOrder)
    requires IsPath(p) && packet.Length >= PAYLOAD && Prepared(packet[..], p) && n <= 1000
    modifies packet
    ensures Outside(old(packet[..]), packet[..], IP, PAYLOAD)
    ensures Sealed(packet[..], p, n)
  {
    ghost var b0 := packet[..];
    SealIp(packet, p, 28 + n, order);
    ghost var b1 := packet[..];
    OutsideSlice(b0, b1, IP, UDP, 0, IP);
    OutsideSlice(b0, b1, IP, UDP, UDP, PAYLOAD);
    SealUdp(packet, p, 8 + n, order);
    OutsideSlice(b1, packet[..], UDP, PAYLOAD, 0, IP);
    OutsideSlice(b1, packet[..], UDP, PAYLOAD, IP, UDP);
  }

  /** The complete headers of a frame with `n` bytes of payload; they can be sealed again. */
  ghost predicate Sealed(b: seq<Byte>, p: Path, n: nat)
    requires IsPath(p) && n <= 1000
  {
    && Prepared(b, p)
    && b[IP..UDP] == IpHeader(p, 28 + n) && b[UDP..PAYLOAD] == UdpHeader(p, 8 + n)
  }

  lemma HeadersKept(b: seq<Byte>, b': seq<Byte>, p: Path, n: nat)
    requires IsPath(p) && n <= 1000 && Sealed(b, p, n) && Outside(b, b', PAYLOAD, |b|)
    ensures Sealed(b', p, n)
  {
    OutsideSlice(b, b', PAYLOAD, |b|, 0, IP);
    OutsideSlice(b, b', PAYLOAD, |b|, IP, UDP);
    OutsideSlice(b, b', PAYLOAD, |b|, UDP, PAYLOAD);
  }

  /** snprintf of a text into a buffer: what fits, a NUL, and the length of the whole text. */
  method Snprintf(msg: array<Byte>, text: seq<Byte>) returns (n: nat)
    requires msg.Length > 0
    modifies msg
    ensures n == |text|
    ensures var k := if n < msg.Length then n else msg.Length - 1; msg[..k] == text[..k] && msg[k] == 0
  {
    n := |text|;
    var k := if n < msg.Length then n else msg.Length - 1;
    Copy(msg, 0, text[..k] + [0]);
    assert msg[0..k + 1][..k] == text[..k];
    assert msg[0..k + 1][k] == 0;
  }

  /** What `create_reply_packet` comes to: a frame of that many bytes, or a write behind the packet. */
  datatype Outcome = NoReply | Reply(length: nat) | PacketOverrun

  /** Whether headers, text, blank and counter fit the packet. */
  predicate FitsPacket(payload: seq<Byte>, counter: nat) {
    PAYLOAD + |payload| + 1 + |Decimal(counter)| <= BUF_SIZE
  }

  /** `create_reply_packet`; `behind` is what lies in memory behind the buffer of the reply text. */
  method CreateReplyPacket(packet: array<Byte>, received: Request, counter: nat, behind: seq<Byte>, order: ByteOrder)
    returns (r: Outcome)
    requires IsPath(received.path) && packet.Length == BUF_SIZE && |behind| == BUF_SIZE
    modifies packet
    ensures var reply := ReplyText(received.payload, counter);
            if FitsPacket(received.payload, counter)
            then && r == Reply(PAYLOAD + |reply|)
                 && Received(packet[..], Frame(Back(received.path), SentText(reply, behind)))
            else r == PacketOverrun
  {
    var p := Back(received.path);
    var msg := new Byte[REPLY_SIZE](_ => 0);
    var n := Snprintf(msg, ReplyText(received.payload, counter));
    if PAYLOAD + n > BUF_SIZE {
      return PacketOverrun;
    }
    var sent := (msg[..] + behind)[..n];
    assert sent == SentText(ReplyText(received.payload, counter), behind) by {
      CopiedText(msg[..], ReplyText(received.payload, counter), behind);
    }
    WriteHeaders(packet, p, order);
    SealHeaders(packet, p, n, order);
    ghost var b1 := packet[..];
    Copy(packet, PAYLOAD, sent);
    HeadersKept(b1, packet[..], p, n);
    Assemble(packet[..], p, sent);
    r := Reply(PAYLOAD + n);
  }

  /** Replies to the client program always fit the packet. A frame of 1023 bytes from another
      program is accepted, and the reply to it does not fit, whatever the counter. */
  lemma PacketOverrunHappens(b: seq<Byte>, p: Path, text: seq<Byte>, counter: nat)
    requires IsPath(p) && p.dport == SERVER_PORT && text != [] && IsText(text)
    requires |b| == BUF_SIZE && |text| <= 981 && Carries(b, p, text)
    ensures ServerReads(b, PAYLOAD + |text|, p.daddr) == Some(Request(p, text))
    ensures |text| < MAX_INPUT_SIZE && counter < 0x8000_0000 ==> FitsPacket(text, counter)
    ensures |text| == 981 ==> !FitsPacket(text, counter)
  {
    ServerReadsFrame(b, p, text);
    assert |ReplyText(text, counter)| == |text| + 1 + |Decimal(counter)|;
  }

  lemma CopiedText(msg: seq<Byte>, text: seq<Byte>, behind: seq<Byte>)
    requires |msg| == REPLY_SIZE && |text| <= REPLY_SIZE + |behind|
    requires var k := if |text| < REPLY_SIZE then |text| else REPLY_SIZE - 1; msg[..k] == text[..k] && msg[k] == 0
    ensures (msg + behind)[..|text|] == SentText(text, behind)
  {
    if |text| < REPLY_SIZE {
      assert (msg + behind)[..|text|] == msg[..|text|];
    } else {
      assert msg == text[..REPLY_SIZE - 1] + [0];
    }
  }
}
