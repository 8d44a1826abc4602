/** The DNS messages that client and server exchange, section 4.1 of RFC 1035, as sequences of bytes.
  *
  * The client (src/mydns.c) and the server (src/nameserver.c) each compute where the answer's address
  * lies.  The methods in DnsBuffers.dfy are proved to compute these functions on byte buffers.
  */
module DnsMessages {
  import opened Options
  import opened DnsNames

  type U16 = x: int | 0 <= x < 0x1_0000
  type Bit = x: int | 0 <= x < 2
  type Three = x: int | 0 <= x < 8
  type Nibble = x: int | 0 <= x < 16

  /** The header of section 4.1.1 of RFC 1035. */
  datatype Header = Header(
    id: U16, qr: Bit, opcode: Nibble, aa: Bit, tc: Bit, rd: Bit, ra: Bit, z: Three, rcode: Nibble,
    qdcount: U16, ancount: U16, nscount: U16, arcount: U16)

  const HEADER_SIZE := 12
  const QUESTION_SIZE := 4
  const ANSWER_STRUCT_SIZE := 12  // sizeof(answer_t): ten bytes of fields and two of padding

  function Be16(x: U16): seq<Byte> {
    [x / 256, x % 256]
  }

  function HeaderBytes(h: Header): (b: seq<Byte>)
    ensures |b| == HEADER_SIZE
  {
    Be16(h.id)
    + [h.qr * 128 + h.opcode * 8 + h.aa * 4 + h.tc * 2 + h.rd, h.ra * 128 + h.z * 16 + h.rcode]
    + Be16(h.qdcount) + Be16(h.ancount) + Be16(h.nscount) + Be16(h.arcount)
  }

  /** What `q_pkt_maker` puts in the header. */
  function QueryHeader(id: U16): Header {
    Header(id, 0, 0, 0, 0, 0, 0, 0, 0, 1, 0, 0, 0)
  }

  /** Type A, class IN. */
  function QuestionBytes(): (b: seq<Byte>)
    ensures |b| == QUESTION_SIZE
  {
    Be16(1) + Be16(1)
  }

  /** The bytes that `pkt2buf` writes for a query: of the converted name, what a string function sees. */
  function Query(id: U16, host: seq<Byte>): seq<Byte> {
    HeaderBytes(QueryHeader(id)) + CStr(Converted(host)) + [0] + QuestionBytes()
  }

  // ---- the server ----

  /** Where the name's terminating zero is, for buffers that have one. */
  function NameEnd(b: seq<Byte>): (e: nat)
    requires |b| >= HEADER_SIZE
    ensures HEADER_SIZE <= e <= |b|
  {
    HEADER_SIZE + |CStr(b[HEADER_SIZE..])|
  }

  /** The buffer holds a header, a terminated name and a question. */
  predicate Complete(b: seq<Byte>) {
    |b| >= HEADER_SIZE && NameEnd(b) + 1 + QUESTION_SIZE <= |b|
  }

  /** `buf_len` */
  function BufLen(b: seq<Byte>): (n: nat)
    requires Complete(b)
    ensures HEADER_SIZE < n <= |b|
  {
    NameEnd(b) + 1 + QUESTION_SIZE
  }

  /** The byte with the bits QR and AA set. */
  function WithQrAa(b: Byte): Byte {
    var q: int := if b / 128 % 2 == 1 then b else b + 128;
    if q / 4 % 2 == 1 then q else q + 4
  }

  /** The three assignments that both sides make to a header: QR, AA and one answer. */
  function Answered(b: seq<Byte>): (r: seq<Byte>)
    requires |b| >= HEADER_SIZE
    ensures |r| == |b|
  {
    b[2 := WithQrAa(b[2])][6 := 0][7 := 1]
  }

  function AnswerBytes(): (b: seq<Byte>)
    ensures |b| == ANSWER_STRUCT_SIZE - 2
  {
    Be16(1) + Be16(1) + [0, 0, 0, 0] + Be16(4)
  }

  /** `gen_res`: the request with its header answered, the name again, the fixed fields, the address. */
  function Reply(b: seq<Byte>, ip: seq<Byte>): seq<Byte>
    requires Complete(b)
  {
    Answered(b[..BufLen(b)]) + b[HEADER_SIZE..NameEnd(b) + 1] + AnswerBytes() + ip
  }

  /** `gen_err`: the request with some value in the four bits of RCODE. */
  function ErrorReply(b: seq<Byte>, rcode: Nibble): seq<Byte>
    requires Complete(b)
  {
    b[..BufLen(b)][3 := b[3] / 16 * 16 + rcode]
  }

  /** `parse`: the buffer agrees with the reference query from the third byte on. */
  predicate Accepts(b: seq<Byte>, reference: seq<Byte>)
    requires 2 <= |reference| <= |b|
  {
    b[2..|reference|] == reference[2..]
  }

  // ---- the client ----

  /** `parse_res`: None for -1, otherwise the address taken from where the client expects it. */
  function ParseRes(request: seq<Byte>, response: seq<Byte>, n: nat): Option<seq<Byte>>
    requires |request| >= HEADER_SIZE && NameEnd(request) < |request|
    requires n <= |request| && AddressAt(request, n) + 4 <= |response|
  {
    if Answered(request)[..n] != response[..n] then None
    else Some(response[AddressAt(request, n)..AddressAt(request, n) + 4])
  }

  /** The client's own computation of the address's offset. */
  function AddressAt(request: seq<Byte>, n: nat): (at: nat)
    requires |request| >= HEADER_SIZE
    ensures at >= n
  {
    n + (NameEnd(request) - HEADER_SIZE) + 1 + ANSWER_STRUCT_SIZE - 2
  }

  // ---- the layout ----

  function U16At(b: seq<Byte>, i: nat): int
    requires i + 2 <= |b|
  {
    var hi: int, lo: int := b[i], b[i + 1];
    hi * 256 + lo
  }

  /** The header as section 4.1.1 of RFC 1035 lays it out, bit by bit. */
  lemma HeaderReadsBack(h: Header)
    ensures var b := HeaderBytes(h);
            var flags: int, codes: int := b[2], b[3];
            && U16At(b, 0) == h.id
            && flags / 128 == h.qr && flags / 8 % 16 == h.opcode
            && flags / 4 % 2 == h.aa && flags / 2 % 2 == h.tc && flags % 2 == h.rd
            && codes / 128 == h.ra && codes / 16 % 8 == h.z && codes % 16 == h.rcode
            && U16At(b, 4) == h.qdcount && U16At(b, 6) == h.ancount
            && U16At(b, 8) == h.nscount && U16At(b, 10) == h.arcount
  {
    FlagsReadBack(h.qr, h.opcode, h.aa, h.tc, h.rd);
  }

  lemma FlagsReadBack(qr: Bit, opcode: Nibble, aa: Bit, tc: Bit, rd: Bit)
    ensures var flags: int := qr * 128 + opcode * 8 + aa * 4 + tc * 2 + rd;
            && flags / 128 == qr && flags / 8 % 16 == opcode
            && flags / 4 % 2 == aa && flags / 2 % 2 == tc && flags % 2 == rd
  {
  }

  /** For any host the query has these numbers and the bytes of the name up to their first zero. */
  lemma AnyQueryReadsBack(id: U16, host: seq<Byte>)
    ensures var q, name := Query(id, host), CStr(Converted(host));
            && |q| == 12 + |name| + 1 + 4
            && q[..12] == [id / 256, id % 256, 0, 0, 0, 1, 0, 0, 0, 0, 0, 0]
            && q[12..] == name + [0] + [0, 1, 0, 1]
  {
    var q, name, head := Query(id, host), CStr(Converted(host)), HeaderBytes(QueryHeader(id));
    assert q == head + (name + [0] + QuestionBytes());
    assert q[12..] == name + [0] + QuestionBytes() && q[..12] == head;
  }

  lemma HeadNumbers(q: seq<Byte>, id: U16)
    requires |q| >= 12 && q[..12] == [id / 256, id % 256, 0, 0, 0, 1, 0, 0, 0, 0, 0, 0]
    ensures U16At(q, 0) == id && q[2] == 0 && q[3] == 0
    ensures U16At(q, 4) == 1 && U16At(q, 6) == 0 && U16At(q, 8) == 0 && U16At(q, 10) == 0
  {
    var h := q[..12];
    assert q[0] == h[0] && q[1] == h[1] && q[2] == h[2] && q[3] == h[3] && q[4] == h[4] && q[5] == h[5];
    assert q[6] == h[6] && q[7] == h[7] && q[8] == h[8] && q[9] == h[9] && q[10] == h[10] && q[11] == h[11];
  }

  lemma TailNumbers(q: seq<Byte>, front: seq<Byte>)
    requires q == front + [0, 1, 0, 1]
    ensures U16At(q, |q| - 4) == 1 && U16At(q, |q| - 2) == 1
  {
  }

  /** A query as sections 4.1.1 and 4.1.2 of RFC 1035 read it: one question and nothing else, for an address
    * (type 1) in the Internet (class 1), no flag set, and the host's labels.
    */
  lemma QueryReadsBack(id: U16, host: seq<Byte>)
    requires GoodName(host)
    ensures var q := Query(id, host);
            && |q| == 12 + |host| + 2 + 4
            && U16At(q, 0) == id && q[2] == 0 && q[3] == 0
            && U16At(q, 4) == 1 && U16At(q, 6) == 0 && U16At(q, 8) == 0 && U16At(q, 10) == 0
            && Decode(q[12..]) == Some(Labels(host))
            && U16At(q, |q| - 4) == 1 && U16At(q, |q| - 2) == 1
  {
    var q := Query(id, host);
    AnyQueryReadsBack(id, host);
    HeadNumbers(q, id);
    GoodNamesAreWhole(host);
    ConvertedLength(host);
    ConvertedDecodes(host, [0, 1, 0, 1]);
    assert q == (q[..12] + Converted(host)) + [0, 1, 0, 1];
    TailNumbers(q, q[..12] + Converted(host));
  }

  /** What the answer changes in any message: two flag bits and the count of answers. */
  lemma AnsweredMeaning(b: seq<Byte>)
    requires |b| >= 12
    ensures var r := Answered(b);
            var was: int, now: int := b[2], r[2];
            && now / 128 == 1 && now / 4 % 2 == 1 && now / 8 % 16 == was / 8 % 16 && now % 4 == was % 4
            && U16At(r, 6) == 1
            && forall k :: 0 <= k < |b| && k != 2 && k != 6 && k != 7 ==> r[k] == b[k]
  {
    FlagsKept(b[2]);
  }

  lemma FlagsKept(b: Byte)
    ensures var was: int, now: int := b, WithQrAa(b);
            now / 128 == 1 && now / 4 % 2 == 1 && now / 8 % 16 == was / 8 % 16 && now % 4 == was % 4
  {
    var x: int := b;
    InBits(x);
    FlagPartsKept(x / 128, x / 8 % 16, x / 4 % 2, x / 2 % 2, x % 2);
  }

  lemma FlagPartsKept(qr: Bit, opcode: Nibble, aa: Bit, tc: Bit, rd: Bit)
    ensures var was: int := qr * 128 + opcode * 8 + aa * 4 + tc * 2 + rd;
            var now: int := WithQrAa(was);
            now / 128 == 1 && now / 4 % 2 == 1 && now / 8 % 16 == was / 8 % 16 && now % 4 == was % 4
  {
    FlagByte(qr, opcode, aa, tc, rd);
    FlagsReadBack(qr, opcode, aa, tc, rd);
    FlagsReadBack(1, opcode, 1, tc, rd);
  }

  lemma InBits(x: int)
    requires 0 <= x < 256
    ensures x == x / 128 * 128 + x / 8 % 16 * 8 + x / 4 % 2 * 4 + x / 2 % 2 * 2 + x % 2
  {
    assert x / 4 == x / 8 * 2 + x / 4 % 2 && x / 2 == x / 4 * 2 + x / 2 % 2;
    assert x / 8 == x / 128 * 16 + x / 8 % 16;
  }

  /** An error reply is the request up to the end of its question, with another value in the last four bits of
    * the fourth byte.
    */
  lemma ErrorReplyMeaning(b: seq<Byte>, rcode: Nibble)
    requires Complete(b)
    ensures var r := ErrorReply(b, rcode);
            var was: int, now: int := b[3], r[3];
            && |r| == BufLen(b) && now / 16 == was / 16 && now % 16 == rcode
            && forall k :: 0 <= k < |r| && k != 3 ==> r[k] == b[k]
  {
    assert (b[3] / 16 * 16 + rcode) / 16 == b[3] / 16;
  }

  /** The server compares every byte from the third on, as far as the reference query goes. */
  lemma AcceptsMeaning(b: seq<Byte>, reference: seq<Byte>)
    requires 2 <= |reference| <= |b|
    ensures Accepts(b, reference) <==> forall k :: 2 <= k < |reference| ==> b[k] == reference[k]
  {
    if Accepts(b, reference) {
      forall k | 2 <= k < |reference|
        ensures b[k] == reference[k]
      {
        assert b[2..|reference|][k - 2] == reference[2..][k - 2];
      }
    }
  }

  /** So a query for the reference host that asks for recursion (RD, the last bit of the third byte) is refused,
    * and so is one for another type.
    */
  lemma OtherQueriesRefused(id: U16, refId: U16, host: seq<Byte>, junk: seq<Byte>, t: Byte)
    requires t != 1
    ensures var q, reference := Query(id, host), Query(refId, host);
            && |q| == |reference| > 12
            && !Accepts(q[2 := 1] + junk, reference) && !Accepts(q[|q| - 3 := t] + junk, reference)
  {
    AnyQueryReadsBack(id, host);
    AnyQueryReadsBack(refId, host);
    var q, reference := Query(id, host), Query(refId, host);
    AcceptsMeaning(q[2 := 1] + junk, reference);
    AcceptsMeaning(q[|q| - 3 := t] + junk, reference);
    assert reference[..12][2] == 0;
    assert reference[12..][|q| - 3 - 12] == 1;
  }

  /** On a header of section 4.1.1 the byte assignments set the fields QR, AA and ANCOUNT. */
  lemma AnsweredHeader(h: Header)
    ensures Answered(HeaderBytes(h)) == HeaderBytes(h.(qr := 1, aa := 1, ancount := 1))
  {
    FlagByte(h.qr, h.opcode, h.aa, h.tc, h.rd);
  }

  lemma FlagByte(qr: Bit, opcode: Nibble, aa: Bit, tc: Bit, rd: Bit)
    ensures WithQrAa(qr * 128 + opcode * 8 + aa * 4 + tc * 2 + rd) == 128 + opcode * 8 + 4 + tc * 2 + rd
  {
  }

  /** A buffer that starts with a query is read as that query, whatever lies behind it. */
  lemma QueryInBuffer(id: U16, host: seq<Byte>, junk: seq<Byte>)
    ensures var q := Query(id, host);
            && Complete(q + junk) && BufLen(q + junk) == |q| && (q + junk)[..|q|] == q
            && NameEnd(q + junk) == HEADER_SIZE + |CStr(Converted(host))|
            && (q + junk)[HEADER_SIZE..NameEnd(q + junk) + 1] == CStr(Converted(host)) + [0]
  {
    var q, name := Query(id, host), CStr(Converted(host));
    assert (q + junk)[HEADER_SIZE..] == name + [0] + (QuestionBytes() + junk);
    CStrOf(name, QuestionBytes() + junk);
  }

  lemma AnsweredPrefix(q: seq<Byte>, junk: seq<Byte>)
    requires |q| >= HEADER_SIZE
    ensures Answered(q + junk)[..|q|] == Answered(q)
  {
  }

  lemma ReplyShape(id: U16, host: seq<Byte>, ip: seq<Byte>, junk: seq<Byte>)
    ensures var q := Query(id, host);
            Complete(q + junk) &&
              Reply(q + junk, ip) == Answered(q) + (CStr(Converted(host)) + [0]) + AnswerBytes() + ip
  {
    QueryInBuffer(id, host, junk);
  }

  /** Both sides mean the same place: the client finds the address that the server wrote. */
  lemma AnswerRoundTrip(id: U16, host: seq<Byte>, ip: seq<Byte>, junk1: seq<Byte>, junk2: seq<Byte>, junk3: seq<Byte>)
    requires |ip| == 4
    ensures var q := Query(id, host);
            && Complete(q + junk1) && Complete(q + junk2)
            && var response := Reply(q + junk2, ip) + junk3;
            && AddressAt(q + junk1, |q|) + 4 <= |response|
            && ParseRes(q + junk1, response, |q|) == Some(ip)
  {
    var q, name := Query(id, host), CStr(Converted(host)) + [0];
    QueryInBuffer(id, host, junk1);
    ReplyShape(id, host, ip, junk2);
    AnsweredPrefix(q, junk1);
    var response := Reply(q + junk2, ip) + junk3;
    assert response[..|q|] == Answered(q);
    var at := AddressAt(q + junk1, |q|);
    assert at == |Answered(q) + name + AnswerBytes()|;
    assert response == (Answered(q) + name + AnswerBytes()) + ip + junk3;
    assert response[at..at + 4] == ip;
  }

  /** The client refuses every error reply, whatever code it carries: the reply is still marked a query. */
  lemma ErrorRejected(id: U16, host: seq<Byte>, rcode: Nibble, junk1: seq<Byte>, junk2: seq<Byte>, junk3: seq<Byte>)
    ensures var q := Query(id, host);
            && Complete(q + junk1) && Complete(q + junk2)
            && var response := ErrorReply(q + junk2, rcode) + junk3;
               AddressAt(q + junk1, |q|) + 4 <= |response| ==> ParseRes(q + junk1, response, |q|) == None
  {
    var q := Query(id, host);
    QueryInBuffer(id, host, junk1);
    QueryInBuffer(id, host, junk2);
    var response := ErrorReply(q + junk2, rcode) + junk3;
    assert q[2] == 0;
    assert Answered(q + junk1)[..|q|][2] == 132 && response[..|q|][2] == 0;
  }

  // ---- which answers the client takes ----

  lemma AnsweredHead(a: Byte, b: Byte, rest: seq<Byte>)
    ensures Answered([a, b, 0, 0, 0, 1, 0, 0, 0, 0, 0, 0] + rest) == [a, b, 132, 0, 0, 1, 0, 1, 0, 0, 0, 0] + rest
  {
    var h := [a, b, 0, 0, 0, 1, 0, 0, 0, 0, 0, 0];
    assert WithQrAa(0) == 132;
    assert h[2 := 132][6 := 0][7 := 1] == [a, b, 132, 0, 0, 1, 0, 1, 0, 0, 0, 0];
    assert (h + rest)[2 := 132][6 := 0][7 := 1] == h[2 := 132][6 := 0][7 := 1] + rest;
  }

  lemma AnsweredQuery(id: U16, host: seq<Byte>)
    ensures Answered(Query(id, host))
         == [id / 256, id % 256, 132, 0, 0, 1, 0, 1, 0, 0, 0, 0] + (CStr(Converted(host)) + [0] + [0, 1, 0, 1])
  {
    AnyQueryReadsBack(id, host);
    var q, rest := Query(id, host), CStr(Converted(host)) + [0] + [0, 1, 0, 1];
    assert q == q[..12] + q[12..];
    AnsweredHead(id / 256, id % 256, rest);
  }

  lemma SameHeads(a: seq<Byte>, b: seq<Byte>, x: seq<Byte>, y: seq<Byte>)
    requires |a| == |b| && a + x == b + y
    ensures a == b && x == y
  {
    assert a == (a + x)[..|a|] && x == (a + x)[|a|..];
    assert b == (b + y)[..|b|] && y == (b + y)[|b|..];
  }

  /** Nothing but the identifier and the name tells one query from another. */
  lemma SameAnswered(id: U16, host: seq<Byte>, id2: U16, host2: seq<Byte>, x: seq<Byte>, y: seq<Byte>)
    requires Answered(Query(id, host)) + x == Answered(Query(id2, host2)) + y
    ensures id == id2 && CStr(Converted(host)) == CStr(Converted(host2))
  {
    var head := [id / 256, id % 256, 132, 0, 0, 1, 0, 1, 0, 0, 0, 0];
    var head2 := [id2 / 256, id2 % 256, 132, 0, 0, 1, 0, 1, 0, 0, 0, 0];
    AnsweredQuery(id, host);
    AnsweredQuery(id2, host2);
    SameParts(head, CStr(Converted(host)), x, head2, CStr(Converted(host2)), y);
    assert head[0] == head2[0] && head[1] == head2[1];
    SameU16(id, id2);
  }

  lemma SameParts(a: seq<Byte>, name: seq<Byte>, x: seq<Byte>, a2: seq<Byte>, name2: seq<Byte>, y: seq<Byte>)
    requires |a| == |a2| && 0 !in name && 0 !in name2
    requires a + (name + [0] + [0, 1, 0, 1]) + x == a2 + (name2 + [0] + [0, 1, 0, 1]) + y
    ensures a == a2 && name == name2
  {
    var tail, tail2 := [0, 1, 0, 1] + x, [0, 1, 0, 1] + y;
    assert a + (name + [0] + [0, 1, 0, 1]) + x == a + (name + [0] + tail);
    assert a2 + (name2 + [0] + [0, 1, 0, 1]) + y == a2 + (name2 + [0] + tail2);
    SameHeads(a, a2, name + [0] + tail, name2 + [0] + tail2);
    CStrOf(name, tail);
    CStrOf(name2, tail2);
  }

  lemma SameU16(x: U16, y: U16)
    requires x / 256 == y / 256 && x % 256 == y % 256
    ensures x == y
  {
  }

  /** The client compares the whole of its request: of all answers to queries it takes just those to a query with
    * its own identifier and name, and reads their address; it refuses every other, a late one for instance.
    */
  lemma TakesOwnAnswersOnly(id: U16, host: seq<Byte>, id2: U16, host2: seq<Byte>, ip: seq<Byte>,
                            junk1: seq<Byte>, junk2: seq<Byte>, junk3: seq<Byte>)
    requires |ip| == 4
    ensures var q, q2 := Query(id, host), Query(id2, host2);
            && Complete(q + junk1) && Complete(q2 + junk2)
            && var response := Reply(q2 + junk2, ip) + junk3;
            AddressAt(q + junk1, |q|) + 4 <= |response| ==>
              ParseRes(q + junk1, response, |q|)
              == if id == id2 && CStr(Converted(host)) == CStr(Converted(host2)) then Some(ip) else None
  {
    var q, q2 := Query(id, host), Query(id2, host2);
    QueryInBuffer(id, host, junk1);
    ReplyShape(id2, host2, ip, junk2);
    var rest := (CStr(Converted(host2)) + [0]) + AnswerBytes() + ip + junk3;
    var response := Reply(q2 + junk2, ip) + junk3;
    assert response == Answered(q2) + rest;
    AnsweredPrefix(q, junk1);
    if id == id2 && CStr(Converted(host)) == CStr(Converted(host2)) {
      assert q == q2;
      AnswerRoundTrip(id, host, ip, junk1, junk2, junk3);
    } else if |q| <= |response| && Answered(q) == response[..|q|] {
      assert response == Answered(q) + response[|q|..];
      SameAnswered(id, host, id2, host2, response[|q|..], rest);
    }
  }

  // ---- which hosts the server knows ----

  lemma SameCString(a: seq<Byte>, x: seq<Byte>, b: seq<Byte>, y: seq<Byte>)
    requires 0 !in a && 0 !in b && b + [0] + y <= a + [0] + x
    ensures a == b
  {
    var whole := a + [0] + x;
    var rest := whole[|b + [0] + y|..];
    assert whole == b + [0] + (y + rest);
    CStrOf(a, x);
    CStrOf(b, y + rest);
  }

  /** The server accepts a query exactly when its name is, as a C string, that of the reference query. */
  lemma AcceptsSameCString(id: U16, host: seq<Byte>, junk: seq<Byte>, refId: U16, refHost: seq<Byte>)
    requires |Query(refId, refHost)| <= |Query(id, host) + junk|
    ensures Accepts(Query(id, host) + junk, Query(refId, refHost)) <==>
            CStr(Converted(host)) == CStr(Converted(refHost))
  {
    var name, refName := CStr(Converted(host)), CStr(Converted(refHost));
    var head, refHead := HeaderBytes(QueryHeader(id)), HeaderBytes(QueryHeader(refId));
    var tail, refTail := name + [0] + (QuestionBytes() + junk), refName + [0] + QuestionBytes();
    QueryHeaders(id, refId);
    QueryParts(id, host, junk);
    QueryParts(refId, refHost, []);
    assert Query(refId, refHost) + [] == Query(refId, refHost) && QuestionBytes() + [] == QuestionBytes();
    ComparePastHead(head, tail, refHead, refTail);
    if refTail <= tail {
      SameCString(name, QuestionBytes() + junk, refName, QuestionBytes());
    }
  }

  lemma QueryParts(id: U16, host: seq<Byte>, junk: seq<Byte>)
    ensures Query(id, host) + junk ==
            HeaderBytes(QueryHeader(id)) + (CStr(Converted(host)) + [0] + (QuestionBytes() + junk))
  {
  }

  /** Queries differ in nothing but identifier and name. */
  lemma QueryHeaders(id: U16, refId: U16)
    ensures HeaderBytes(QueryHeader(id))[2..] == HeaderBytes(QueryHeader(refId))[2..]
  {
  }

  lemma ComparePastHead(head: seq<Byte>, tail: seq<Byte>, refHead: seq<Byte>, refTail: seq<Byte>)
    requires |head| == |refHead| >= 2 && head[2..] == refHead[2..] && |refTail| <= |tail|
    ensures (head + tail)[2..|refHead + refTail|] == (refHead + refTail)[2..] <==> refTail <= tail
  {
    assert (head + tail)[2..|refHead + refTail|] == head[2..] + tail[..|refTail|];
    assert (refHead + refTail)[2..] == refHead[2..] + refTail;
    var n := |head[2..]|;
    assert (head[2..] + tail[..|refTail|])[n..] == tail[..|refTail|];
    assert (refHead[2..] + refTail)[n..] == refTail;
    if refTail <= tail {
      assert tail[..|refTail|] == refTail;
    }
  }

  /** For any host at all: accepted exactly when the labels before the first of length divisible by 256
    * (the first empty one, for names of ordinary size) are those of the reference host.
    */
  lemma AcceptsExactly(id: U16, host: seq<Byte>, junk: seq<Byte>, refId: U16, refHost: seq<Byte>)
    requires 0 !in host && GoodName(refHost) && |refHost| < 255
    requires |Query(refId, refHost)| <= |Query(id, host) + junk|
    ensures Accepts(Query(id, host) + junk, Query(refId, refHost)) <==> Cut(Labels(host)) == Labels(refHost)
  {
    AcceptsSameCString(id, host, junk, refId, refHost);
    ConvertedIsCut(host);
    GoodNamesAreWhole(refHost);
    ConvertedIsCut(refHost);
    ConvertedLength(refHost);
    if Encode(Cut(Labels(host))) == Encode(Labels(refHost)) {
      LabelsFitEncoding(Cut(Labels(host)));
      LabelsFitEncoding(Labels(refHost));
      EncodeInjective(Cut(Labels(host)), Labels(refHost));
    }
  }

  /** Among hosts with labels of 1 to 255 characters only the reference host is accepted. */
  lemma AcceptsOnlyReference(id: U16, host: seq<Byte>, junk: seq<Byte>, refId: U16, refHost: seq<Byte>)
    requires GoodName(host) && GoodName(refHost) && |refHost| < 255
    requires |Query(refId, refHost)| <= |Query(id, host) + junk|
    ensures Accepts(Query(id, host) + junk, Query(refId, refHost)) <==> host == refHost
  {
    AcceptsExactly(id, host, junk, refId, refHost);
    GoodNamesAreWhole(host);
    if Labels(host) == Labels(refHost) {
      HostFromLabels(host, refHost);
    }
  }

  // ---- the exchange ----

  /** What `serve` sends back. */
  function Served(b: seq<Byte>, reference: seq<Byte>, ip: seq<Byte>, rcode: Nibble): seq<Byte>
    requires Complete(b) && 2 <= |reference| <= |b|
  {
    if Accepts(b, reference) then Reply(b, ip) else ErrorReply(b, rcode)
  }

  /** The whole exchange, with a receive buffer long enough for an answer: the client gets the routed
    * address exactly when the server knows the host, and an error otherwise.
    */
  lemma ResolveExactly(id: U16, host: seq<Byte>, refId: U16, refHost: seq<Byte>, ip: seq<Byte>, rcode: Nibble,
                       junk1: seq<Byte>, junk2: seq<Byte>, junk3: seq<Byte>)
    requires 0 !in host && GoodName(refHost) && |refHost| < 255 && |ip| == 4
    requires |Query(refId, refHost)| <= |Query(id, host) + junk2|
    requires 2 * |Query(id, host)| <= |junk3|
    ensures var q := Query(id, host);
            && Complete(q + junk1) && Complete(q + junk2)
            && var response := Served(q + junk2, Query(refId, refHost), ip, rcode) + junk3;
            && AddressAt(q + junk1, |q|) + 4 <= |response|
            && ParseRes(q + junk1, response, |q|) == if Cut(Labels(host)) == Labels(refHost) then Some(ip) else None
  {
    QueryInBuffer(id, host, junk1);
    QueryInBuffer(id, host, junk2);
    AcceptsExactly(id, host, junk2, refId, refHost);
    if Cut(Labels(host)) == Labels(refHost) {
      AnswerRoundTrip(id, host, ip, junk1, junk2, junk3);
    } else {
      ErrorRejected(id, host, rcode, junk1, junk2, junk3);
    }
  }

  /** The reference host, and what it is on the wire. */
  lemma ReferenceHostBytes()
    ensures REF_HOST == [118, 105, 100, 101, 111, 46, 99, 115, 46, 99, 109, 117, 46, 101, 100, 117]
    ensures Converted(REF_HOST)
         == ([5] + [118, 105, 100, 101, 111])
            + (([2] + [99, 115]) + (([3] + [99, 109, 117]) + ([3] + [101, 100, 117]))) + [0]
  {
    ReferenceHostIsGood();
    EncodeFour(VIDEO, CS, CMU, EDU);
  }

  lemma EncodeFour(a: Label, b: Label, c: Label, d: Label)
    ensures Encode([a] + ([b] + ([c] + [d])))
         == ([|a| % 256] + a) + (([|b| % 256] + b) + (([|c| % 256] + c) + ([|d| % 256] + d)))
  {
    EncodeCons(a, [b] + ([c] + [d]));
    EncodeCons(b, [c] + [d]);
    EncodeCons(c, [d]);
    EncodeCons(d, []);
    assert [d] + [] == [d];
  }

  const VIDEO: Label := [118, 105, 100, 101, 111]
  const CS: Label := [99, 115]
  const CMU: Label := [99, 109, 117]
  const EDU: Label := [101, 100, 117]

  /** The server's own reference host, video.cs.cmu.edu. */
  const REF_HOST: seq<Byte> := VIDEO + ([DOT] + (CS + ([DOT] + (CMU + ([DOT] + EDU)))))

  /** Putting a good label in front of a good host. */
  lemma GoodNameGrows(l: Label, h: seq<Byte>)
    requires DOT !in l && 0 !in l && 1 <= |l| <= 255 && GoodName(h)
    ensures GoodName(l + ([DOT] + h)) && Labels(l + ([DOT] + h)) == [l] + Labels(h)
  {
    FirstLabel(l, h);
  }

  lemma ReferenceHostIsGood()
    ensures Labels(REF_HOST) == [VIDEO] + ([CS] + ([CMU] + [EDU])) && GoodName(REF_HOST) && |REF_HOST| < 255
  {
    FirstLabel(EDU, []);
    GoodNameGrows(CMU, EDU);
    GoodNameGrows(CS, CMU + ([DOT] + EDU));
    GoodNameGrows(VIDEO, CS + ([DOT] + (CMU + ([DOT] + EDU))));
  }

  /** Hosts that are cut to the same labels are asked for with the same bytes. */
  lemma SameQuery(id: U16, refId: U16, host: seq<Byte>, refHost: seq<Byte>)
    requires 0 !in host && 0 !in refHost && Cut(Labels(host)) == Cut(Labels(refHost))
    ensures |Query(refId, refHost)| <= |Query(id, host)| && Accepts(Query(id, host), Query(refId, refHost))
  {
    ConvertedIsCut(host);
    ConvertedIsCut(refHost);
    assert Query(id, host) + [] == Query(id, host);
    AcceptsSameCString(id, host, [], refId, refHost);
  }

  /** A host that is not the reference host and is accepted all the same: a dot at the end goes unnoticed. */
  lemma TrailingDotAccepted(id: U16, refId: U16)
    ensures |Query(refId, REF_HOST)| <= |Query(id, REF_HOST + [DOT])|
    ensures Accepts(Query(id, REF_HOST + [DOT]), Query(refId, REF_HOST))
  {
    ReferenceHostIsGood();
    TrailingDotIsCut(REF_HOST);
    SameQuery(id, refId, REF_HOST + [DOT], REF_HOST);
  }

  // ---- the answer as RFC 1035 reads it ----

  /** A resource record of section 4.1.3 of RFC 1035. */
  datatype Record = Record(name: seq<Label>, rtype: int, rclass: int, ttl: int, rdata: seq<Byte>)

  /** The fields behind the name: type, class, time to live, length and data. */
  function ReadFields(b: seq<Byte>, name: seq<Label>): Option<Record> {
    if |b| < 10 then None
    else
      var n := U16At(b, 8);
      if |b| < 10 + n then None
      else Some(Record(name, U16At(b, 0), U16At(b, 2), U16At(b, 4) * 65536 + U16At(b, 6), b[10..10 + n]))
  }

  function ReadRecord(b: seq<Byte>): Option<Record> {
    match Decode(b)
    case None => None
    case Some(name) => if |Encode(name)| < |b| then ReadFields(b[|Encode(name)| + 1..], name) else None
  }

  lemma ReadsFields(name: seq<Label>, ip: seq<Byte>, more: seq<Byte>)
    requires |ip| == 4
    ensures ReadFields(AnswerBytes() + ip + more, name) == Some(Record(name, 1, 1, 0, ip))
  {
    var b := AnswerBytes() + ip + more;
    assert b[10..14] == ip;
  }

  lemma ReadsRecord(name: seq<Byte>, ls: seq<Label>, tail: seq<Byte>)
    requires Decode(name + tail) == Some(ls) && |name| == |Encode(ls)| + 1
    ensures ReadRecord(name + tail) == ReadFields(tail, ls)
  {
    assert (name + tail)[|name|..] == tail;
  }

  /** The reply says "response, authoritative, one answer" and echoes the question. */
  lemma ReplyHeader(id: U16, host: seq<Byte>, ip: seq<Byte>, junk: seq<Byte>)
    ensures var q := Query(id, host);
            && Complete(q + junk) && |q| <= |Reply(q + junk, ip)|
            && Reply(q + junk, ip)[..HEADER_SIZE] == HeaderBytes(QueryHeader(id).(qr := 1, aa := 1, ancount := 1))
            && Reply(q + junk, ip)[HEADER_SIZE..|q|] == q[HEADER_SIZE..]
  {
    var q, head := Query(id, host), HeaderBytes(QueryHeader(id));
    ReplyShape(id, host, ip, junk);
    var r := Reply(q + junk, ip);
    assert r[..|q|] == Answered(q);
    AnsweredHeader(QueryHeader(id));
    assert q[..HEADER_SIZE] == head;
    assert r[..HEADER_SIZE] == r[..|q|][..HEADER_SIZE] == Answered(head);
    assert r[HEADER_SIZE..|q|] == r[..|q|][HEADER_SIZE..] == q[HEADER_SIZE..];
  }

  /** Behind the question stands an address record for the host that was asked for: type A, class IN, time
    * to live 0, and the address as data.
    */
  lemma ReplyRecord(id: U16, host: seq<Byte>, ip: seq<Byte>, junk: seq<Byte>, more: seq<Byte>)
    requires GoodName(host) && |ip| == 4
    ensures var q := Query(id, host);
            && Complete(q + junk) && |q| <= |Reply(q + junk, ip) + more|
            && ReadRecord((Reply(q + junk, ip) + more)[|q|..]) == Some(Record(Labels(host), 1, 1, 0, ip))
  {
    var before, tail := Answered(Query(id, host)), AnswerBytes() + ip + more;
    ReplyShape(id, host, ip, junk);
    GoodNamesAreWhole(host);
    Regroup(before, Converted(host), AnswerBytes(), ip, more);
    ConvertedDecodes(host, tail);
    ReadsRecord(Converted(host), Labels(host), tail);
    ReadsFields(Labels(host), ip, more);
  }

  lemma Regroup(a: seq<Byte>, b: seq<Byte>, c: seq<Byte>, d: seq<Byte>, e: seq<Byte>)
    ensures (a + b + c + d + e)[|a|..] == b + (c + d + e)
  {
  }
}
