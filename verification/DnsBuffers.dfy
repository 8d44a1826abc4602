/** The functions of src/mydns.c and src/nameserver.c that build and take apart DNS messages in byte buffers. */
module DnsBuffers {
  import opened DnsNames
  import opened DnsMessages

  /** `memcpy` to position `at`, and the index moved past it: `written`, which fills the buffer up to
    * `at`, grows by `bytes`, and what lies behind stays.
    */
  method Append(buf: array<Byte>, at: nat, bytes: seq<Byte>, ghost written: seq<Byte>) returns (index: nat)
    requires at + |bytes| <= buf.Length && buf[..at] == written
    modifies buf
    ensures index == at + |bytes| && buf[..index] == written + bytes
    ensures buf[index..] == old(buf[..])[index..]
  {
    forall i | 0 <= i < |bytes| {
      buf[at + i] := bytes[i];
    }
    index := at + |bytes|;
    assert buf[at..index] == bytes;
    assert buf[..index] == buf[..at] + buf[at..index];
  }

  /** `strlen` of the string that starts at `at`. */
  method StrLen(buf: array<Byte>, at: nat) returns (n: nat)
    requires at <= buf.Length && at + |CStr(buf[at..])| < buf.Length
    ensures n == |CStr(buf[at..])|
  {
    n := 0;
    while buf[at + n] != 0
      invariant n <= |CStr(buf[at..])| && at + n < buf.Length
      decreases buf.Length - n
    {
      assert buf[at..][n] == buf[at + n];
      n := n + 1;
    }
    assert buf[at..][n] == 0;
  }

  /** `convertName`: writes the labels of `constSrc`, each behind its length, and a zero.  `p` is the moving
    * pointer `name`, `dot` the start of the label in hand.
    */
  method ConvertName(name: array<Byte>, constSrc: seq<Byte>)
    requires name.Length >= |constSrc| + 2
    modifies name
    ensures name[..] == Converted(constSrc) + old(name[..])[|constSrc| + 2..]
  {
    var src := constSrc + [DOT];
    var length := |constSrc|;
    var dot, p := 0, 0;
    ghost var done: seq<Label> := [];
    var i := 0;
    while i <= length
      invariant 0 <= dot <= i <= length + 1 && p == dot
      invariant i == length + 1 ==> dot == i
      invariant Progress(done, src, dot, name[..dot]) && DOT !in src[dot..i]
      invariant forall k :: dot <= k < name.Length ==> name[k] == old(name[k])
    {
      if src[i] == DOT {
        ghost var written := name[..dot];
        p := PutLabel(name, p, src, dot, i);
        assert name[..i + 1] == written + [(i - dot) % 256] + src[dot..i];
        ProgressStep(done, src, dot, i, written);
        done := done + [src[dot..i]];
        dot := i + 1;
      }
      i := i + 1;
    }
    assert src[..dot] == src;
    LabelsMeaning(constSrc);
    DottedInjective(done, Labels(constSrc));
    name[p] := 0;
    assert name[..dot] == Encode(done);
    assert name[..] == name[..dot] + [name[dot]] + name[dot + 1..];
    assert name[dot + 1..] == old(name[..])[dot + 1..];
  }

  /** `done` are the labels of `src` before `dot`, and `written` is their encoding. */
  ghost predicate Progress(done: seq<Label>, src: seq<Byte>, dot: nat, written: seq<Byte>) {
    dot <= |src| && Dotted(done) == src[..dot] && DotFree(done) && written == Encode(done)
  }

  lemma ProgressStep(done: seq<Label>, src: seq<Byte>, dot: nat, i: nat, written: seq<Byte>)
    requires Progress(done, src, dot, written)
    requires dot <= i < |src| && DOT !in src[dot..i] && src[i] == DOT
    ensures Progress(done + [src[dot..i]], src, i + 1, written + [(i - dot) % 256] + src[dot..i])
  {
    DottedAppend(done, src[dot..i]);
    assert src[..i + 1] == src[..dot] + src[dot..i] + [DOT];
  }

  /** One label of `convertName`: its length, and its characters by the inner loop. */
  method PutLabel(name: array<Byte>, p: nat, src: seq<Byte>, from: nat, to: nat) returns (q: nat)
    requires from <= to <= |src| && p + 1 + (to - from) <= name.Length
    modifies name
    ensures q == p + 1 + (to - from)
    ensures name[..q] == old(name[..])[..p] + ([(to - from) % 256] + src[from..to])
    ensures forall k :: q <= k < name.Length ==> name[k] == old(name[k])
  {
    name[p] := (to - from) % 256;
    q := p + 1;
    var dot := from;
    while dot < to
      invariant from <= dot <= to && q == p + 1 + (dot - from)
      invariant name[..p] == old(name[..])[..p] && name[p] == (to - from) % 256
      invariant forall k :: from <= k < dot ==> name[p + 1 + (k - from)] == src[k]
      invariant forall k :: q <= k < name.Length ==> name[k] == old(name[k])
    {
      name[q] := src[dot];
      q := q + 1;
      dot := dot + 1;
    }
    assert name[p + 1..q] == src[from..to];
    assert name[..q] == name[..p] + ([name[p]] + name[p + 1..q]);
  }

  // ---- the client's side ----

  /** The structures of `data_packet_t` that a query fills in; `qname` is the buffer of the converted name. */
  datatype Packet = Packet(header: Header, qname: seq<Byte>, qtype: U16, qclass: U16)

  function PacketBytes(pkt: Packet): seq<Byte> {
    HeaderBytes(pkt.header) + CStr(pkt.qname) + [0] + (Be16(pkt.qtype) + Be16(pkt.qclass))
  }

  /** `q_pkt_maker`; the identifier is random in the source. */
  method MakeQuery(node: seq<Byte>, id: U16) returns (pkt: Packet)
    ensures PacketBytes(pkt) == Query(id, node) && 0 in pkt.qname
  {
    var qname := new Byte[|node| + 2];
    ConvertName(qname, node);
    ConvertedLength(node);
    assert qname[..] == Converted(node);
    pkt := Packet(QueryHeader(id), qname[..], 1, 1);
    assert pkt.qname[|node| + 1] == 0;
  }

  /** `pkt2buf` for a packet without a response. */
  method PacketToBuffer(buf: array<Byte>, pkt: Packet) returns (index: nat)
    requires |PacketBytes(pkt)| <= buf.Length
    modifies buf
    ensures index == |PacketBytes(pkt)| && buf[..index] == PacketBytes(pkt)
    ensures buf[index..] == old(buf[..])[index..]
  {
    var header, name, question := HeaderBytes(pkt.header), CStr(pkt.qname) + [0], Be16(pkt.qtype) + Be16(pkt.qclass);
    index := Append(buf, 0, header, []);
    index := Append(buf, index, name, header);
    index := Append(buf, index, question, header + name);
    assert header + name + question == PacketBytes(pkt);
  }

  /** `memcmp` of two buffers from `from` up to `to`. */
  method Agree(a: array<Byte>, b: array<Byte>, from: nat, to: nat) returns (same: bool)
    requires from <= to <= a.Length && to <= b.Length
    ensures same <==> a[from..to] == b[from..to]
  {
    var i := from;
    while i < to
      invariant from <= i <= to && a[from..i] == b[from..i]
    {
      if a[i] != b[i] {
        assert a[from..to][i - from] != b[from..to][i - from];
        return false;
      }
      i := i + 1;
    }
    same := true;
  }

  /** The three assignments to the header of the message in the first `n` bytes. */
  method MarkAnswered(buf: array<Byte>, n: nat)
    requires HEADER_SIZE <= n <= buf.Length
    modifies buf
    ensures buf[..n] == Answered(old(buf[..n])) && buf[n..] == old(buf[..])[n..]
  {
    buf[2] := WithQrAa(buf[2]);
    buf[6] := 0;
    buf[7] := 1;
  }

  /** `parse_res`; `ret` is its return value. */
  method ParseResponse(reqBuf: array<Byte>, resBuf: array<Byte>, pktLen: nat) returns (ret: int, ip: seq<Byte>)
    requires reqBuf != resBuf && reqBuf.Length >= HEADER_SIZE && NameEnd(reqBuf[..]) < reqBuf.Length
    requires pktLen <= reqBuf.Length && AddressAt(reqBuf[..], pktLen) + 4 <= resBuf.Length
    modifies reqBuf
    ensures match ParseRes(old(reqBuf[..]), resBuf[..], pktLen)
            case None => ret == -1
            case Some(address) => ret == 0 && ip == address
    ensures reqBuf[..] == Answered(old(reqBuf[..]))
  {
    ghost var before := reqBuf[..];
    assert reqBuf[..reqBuf.Length] == before;
    MarkAnswered(reqBuf, reqBuf.Length);
    assert reqBuf[..] == Answered(before);
    var same := Agree(reqBuf, resBuf, 0, pktLen);
    assert reqBuf[0..pktLen] == Answered(before)[..pktLen] && resBuf[0..pktLen] == resBuf[..][..pktLen];
    if !same {
      return -1, [];
    }
    assert reqBuf[HEADER_SIZE..] == before[HEADER_SIZE..];
    var n := StrLen(reqBuf, HEADER_SIZE);
    var offset := pktLen + n + 1 + ANSWER_STRUCT_SIZE - 2;
    ret, ip := 0, resBuf[offset..offset + 4];
  }

  // ---- the server's side ----

  /** `buf_len` */
  method LengthOf(buf: array<Byte>) returns (length: nat)
    requires Complete(buf[..])
    ensures length == BufLen(buf[..])
  {
    assert buf[..][HEADER_SIZE..] == buf[HEADER_SIZE..];
    var n := StrLen(buf, HEADER_SIZE);
    length := HEADER_SIZE + n + 1 + QUESTION_SIZE;
  }

  /** `gen_err`, with the value that ends up in the code's four bits as a parameter. */
  method GenErr(origin: array<Byte>, rcode: Nibble) returns (len: nat)
    requires Complete(origin[..])
    modifies origin
    ensures len == BufLen(old(origin[..])) && origin[..len] == ErrorReply(old(origin[..]), rcode)
    ensures origin[len..] == old(origin[..])[len..]
  {
    len := LengthOf(origin);
    origin[3] := origin[3] / 16 * 16 + rcode;
  }

  /** `gen_res` */
  method GenRes(reqBuf: array<Byte>, resBuf: array<Byte>, ip: seq<Byte>) returns (len: nat)
    requires reqBuf != resBuf && Complete(reqBuf[..]) && |ip| == 4
    requires |Reply(reqBuf[..], ip)| <= resBuf.Length
    modifies resBuf
    ensures len == |Reply(reqBuf[..], ip)| && resBuf[..len] == Reply(reqBuf[..], ip)
    ensures resBuf[len..] == old(resBuf[..])[len..]
  {
    ghost var b := reqBuf[..];
    len := LengthOf(reqBuf);
    EchoRequest(reqBuf, resBuf, len);
    ghost var head := resBuf[..len];
    var n := StrLenEcho(reqBuf, resBuf, len);
    var qname := resBuf[HEADER_SIZE..HEADER_SIZE + n + 1];
    assert qname == head[HEADER_SIZE..NameEnd(b) + 1] == b[HEADER_SIZE..NameEnd(b) + 1];
    len := AppendAnswer(resBuf, len, qname, ip, head);
  }

  /** The request, copied and marked as answered. */
  method EchoRequest(reqBuf: array<Byte>, resBuf: array<Byte>, len: nat)
    requires reqBuf != resBuf && HEADER_SIZE <= len <= reqBuf.Length && len <= resBuf.Length
    modifies resBuf
    ensures resBuf[..len] == Answered(reqBuf[..len]) && resBuf[len..] == old(resBuf[..])[len..]
  {
    var copied := Append(resBuf, 0, reqBuf[..len], []);
    MarkAnswered(resBuf, len);
  }

  /** The answer record, put behind the first `at` bytes. */
  method AppendAnswer(buf: array<Byte>, at: nat, qname: seq<Byte>, ip: seq<Byte>, ghost written: seq<Byte>)
    returns (len: nat)
    requires at + |qname| + |AnswerBytes()| + |ip| <= buf.Length && buf[..at] == written
    modifies buf
    ensures len == at + |qname| + |AnswerBytes()| + |ip|
    ensures buf[..len] == written + qname + AnswerBytes() + ip && buf[len..] == old(buf[..])[len..]
  {
    ghost var rest := buf[..];
    len := Append(buf, at, qname, written);
    assert buf[len..] == rest[len..];
    len := Append(buf, len, AnswerBytes(), written + qname);
    assert buf[len..] == rest[len..];
    len := Append(buf, len, ip, written + qname + AnswerBytes());
    assert buf[len..] == rest[len..];
  }

  /** The length of the name in the copy that `gen_res` has made of the request. */
  method StrLenEcho(reqBuf: array<Byte>, resBuf: array<Byte>, len: nat) returns (n: nat)
    requires Complete(reqBuf[..]) && len == BufLen(reqBuf[..]) <= resBuf.Length
    requires resBuf[..len] == Answered(reqBuf[..len])
    ensures HEADER_SIZE + n == NameEnd(reqBuf[..])
  {
    ghost var b := reqBuf[..];
    ghost var name := CStr(b[HEADER_SIZE..]);
    assert b[HEADER_SIZE..] == name + [0] + b[NameEnd(b) + 1..];
    assert resBuf[HEADER_SIZE..] == name + [0] + resBuf[NameEnd(b) + 1..];
    CStrOf(name, resBuf[NameEnd(b) + 1..]);
    n := StrLen(resBuf, HEADER_SIZE);
  }

  /** `parse`; 0 for a query for the reference host. */
  method Parse(buf: array<Byte>, refPkt: array<Byte>, refLen: nat) returns (ret: int)
    requires 2 <= refLen <= refPkt.Length && refLen <= buf.Length
    ensures ret == if Accepts(buf[..], refPkt[..refLen]) then 0 else -1
  {
    var same := Agree(buf, refPkt, 2, refLen);
    assert refPkt[..refLen][2..] == refPkt[2..refLen] && buf[..][2..refLen] == buf[2..refLen];
    ret := if same then 0 else -1;
  }
}
