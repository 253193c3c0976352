/** NTS key-establishment records (section 4.1 of RFC 8915, with bodies padded to 4 bytes as
    this server frames them): encoding, decoding and the record-stream parser. */
module NtsKeRecords {
  import opened Basics
  import opened Bytes

  const END_OF_MESSAGE := 0
  const NEXT_PROTOCOL := 1
  const ERROR_RECORD := 2
  const AEAD_ALGORITHM := 4
  const NEW_COOKIE := 5
  const SQUAWK_AUTH_TOKEN := 16384

  const CRITICAL_BIT := 0x8000

  datatype Record = Record(rtype: nat, body: Bytes, critical: bool)

  /** A record as decoded from a stream, with the offset at which the next one starts. */
  datatype Decoded = Decoded(record: Record, next: nat)

  /** The documented domain of `encode`: 15-bit types, bodies whose length fits 16 bits. */
  predicate WellFormed(r: Record) {
    r.rtype < CRITICAL_BIT && |r.body| < 0x10000
  }

  function Encode(r: Record): (b: Bytes)
    requires WellFormed(r)
    ensures |b| == 4 + |r.body| + PadLength(4 + |r.body|)
  {
    var typeField := if r.critical then CRITICAL_BIT + r.rtype else r.rtype;
    PackPair(typeField, |r.body|) + r.body + Zeros(PadLength(4 + |r.body|))
  }

  function Decode(data: Bytes, offset: nat): (d: Option<Decoded>)
    ensures d.Some? ==> offset + 4 <= d.value.next
  {
    if offset + 4 > |data| then None
    else
      var typeField := U16At(data, offset);
      var bodyLength := U16At(data, offset + 2);
      if offset + 4 + bodyLength > |data| then None
      else
        var record := Record(typeField % CRITICAL_BIT,
                             data[offset + 4..offset + 4 + bodyLength],
                             typeField >= CRITICAL_BIT);
        Some(Decoded(record, offset + 4 + bodyLength + PadLength(4 + bodyLength)))
  }

  /** The records of the stream from `offset` up to the first one that does not decode. */
  function RecordsFrom(data: Bytes, offset: nat): seq<Record>
    decreases |data| - offset
  {
    if offset >= |data| then []
    else
      match Decode(data, offset)
      case None => []
      case Some(d) => [d.record] + RecordsFrom(data, d.next)
  }

  method ParseAll(data: Bytes) returns (records: seq<Record>)
    ensures records == RecordsFrom(data, 0)
  {
    records := [];
    var offset := 0;
    while offset < |data|
      invariant records + RecordsFrom(data, offset) == RecordsFrom(data, 0)
      decreases |data| - offset
    {
      var result := Decode(data, offset);
      if result.None? {
        break;
      }
      records := records + [result.value.record];
      offset := result.value.next;
    }
  }

  function EncodeAll(rs: seq<Record>): Bytes
    requires forall r <- rs :: WellFormed(r)
  {
    if rs == [] then [] else Encode(rs[0]) + EncodeAll(rs[1..])
  }

  lemma {:induction false} EncodeAllAppend(rs: seq<Record>, r: Record)
    requires WellFormed(r) && forall q <- rs :: WellFormed(q)
    ensures EncodeAll(rs + [r]) == EncodeAll(rs) + Encode(r)
    decreases |rs|
  {
    if rs == [] {
      assert rs + [r] == [r];
      assert Encode(r) + EncodeAll([]) == Encode(r);
    } else {
      assert (rs + [r])[1..] == rs[1..] + [r];
      EncodeAllAppend(rs[1..], r);
      Regroup(Encode(rs[0]), EncodeAll(rs[1..]), Encode(r));
    }
  }

  /** The layout: critical bit and type, length of the unpadded body, body, zeros up to a multiple of four. */
  lemma {:induction false} EncodeLayout(r: Record)
    requires WellFormed(r)
    ensures var b, n := Encode(r), |r.body|;
            && |b| % 4 == 0 && 4 + n <= |b| < 8 + n
            && UnpackBE(b[0..2]) == r.rtype + (if r.critical then 32768 else 0)
            && UnpackBE(b[2..4]) == n
            && b[4..4 + n] == r.body
            && forall i :: 4 + n <= i < |b| ==> b[i] == 0
  {
    var b := Encode(r);
    var zeros := Zeros(PadLength(4 + |r.body|));
    var typeField := if r.critical then CRITICAL_BIT + r.rtype else r.rtype;
    U16IsBigEndian(b, 0);
    U16IsBigEndian(b, 2);
    LayoutSlices(PackPair(typeField, |r.body|), r.body, zeros);
    PairAt(b, 0, typeField, |r.body|, r.body + zeros);
  }

  lemma LayoutSlices(head: Bytes, body: Bytes, zeros: Bytes)
    requires |head| == 4 && zeros == Zeros(|zeros|)
    ensures var b := head + body + zeros;
            && b[0..] == head + (body + zeros) && b[4..4 + |body|] == body
            && forall i :: 4 + |body| <= i < |b| ==> b[i] == 0
  {
  }

  /** A record decodes exactly when its header and its body are there, whether or not its padding is. */
  lemma {:induction false} DecodeIff(data: Bytes, o: nat)
    ensures Decode(data, o).Some? <==> o + 4 <= |data| && o + 4 + U16At(data, o + 2) <= |data|
    ensures Decode(data, o).Some? ==>
              var d, n := Decode(data, o).value, U16At(data, o + 2);
              && d.record == Record(U16At(data, o) % 32768, data[o + 4..o + 4 + n], U16At(data, o) >= 32768)
              && o + 4 + n <= d.next < o + 8 + n && (d.next - o) % 4 == 0
  {
  }

  /** One encoded record, wherever it sits in a stream, decodes to itself and is stepped over exactly. */
  lemma {:induction false} DecodeEncode(before: Bytes, r: Record, after: Bytes)
    requires WellFormed(r)
    ensures Decode(before + Encode(r) + after, |before|) == Some(Decoded(r, |before| + |Encode(r)|))
  {
    var data := before + Encode(r) + after;
    var o := |before|;
    var typeField := if r.critical then CRITICAL_BIT + r.rtype else r.rtype;
    var rest := r.body + Zeros(PadLength(4 + |r.body|)) + after;
    assert data[o..] == PackPair(typeField, |r.body|) + rest;
    PairAt(data, o, typeField, |r.body|, rest);
    assert data[o + 4..o + 4 + |r.body|] == r.body;
  }

  lemma {:induction false} FirstRecord(before: Bytes, r: Record, after: Bytes)
    requires WellFormed(r)
    ensures var data := before + Encode(r) + after;
            RecordsFrom(data, |before|) == [r] + RecordsFrom(data, |before + Encode(r)|)
  {
    DecodeEncode(before, r, after);
  }

  lemma {:induction false} RecordsFromEncoded(before: Bytes, rs: seq<Record>)
    requires forall r <- rs :: WellFormed(r)
    ensures RecordsFrom(before + EncodeAll(rs), |before|) == rs
    decreases |rs|
  {
    if rs != [] {
      var rest := EncodeAll(rs[1..]);
      Regroup(before, Encode(rs[0]), rest);
      FirstRecord(before, rs[0], rest);
      RecordsFromEncoded(before + Encode(rs[0]), rs[1..]);
      assert rs == [rs[0]] + rs[1..];
    }
  }

  /** `parse_all` undoes concatenated `encode`s, for every list of well-formed records. */
  lemma ParseEncoded(rs: seq<Record>)
    requires forall r <- rs :: WellFormed(r)
    ensures RecordsFrom(EncodeAll(rs), 0) == rs
  {
    RecordsFromEncoded([], rs);
    assert [] + EncodeAll(rs) == EncodeAll(rs);
  }

  /** Body of the first record that carries a Squawk bearer token. */
  function FirstTokenBody(rs: seq<Record>): Option<Bytes>
  {
    if rs == [] then None
    else if rs[0].rtype == SQUAWK_AUTH_TOKEN then Some(rs[0].body)
    else FirstTokenBody(rs[1..])
  }

  /** The bearer token of a client request; `decodeText` is UTF-8 decoding followed by trimming. */
  function AuthToken(decodeText: Bytes -> Option<string>, request: Bytes): Option<string>
  {
    match FirstTokenBody(RecordsFrom(request, 0))
    case None => None
    case Some(body) =>
      var text := decodeText(body);
      if text.None? || text.value == "" then None else text
  }

  method ExtractAuthToken(decodeText: Bytes -> Option<string>, request: Bytes) returns (token: Option<string>)
    ensures token == AuthToken(decodeText, request)
  {
    var records := ParseAll(request);
    for i := 0 to |records|
      invariant FirstTokenBody(records[i..]) == FirstTokenBody(records)
    {
      if records[i].rtype == SQUAWK_AUTH_TOKEN {
        var text := decodeText(records[i].body);
        return if text.None? || text.value == "" then None else text;
      }
      assert records[i..][1..] == records[i + 1..];
    }
    token := None;
  }

  /** The body is that of the first record of the token type. */
  lemma {:induction false} FirstTokenBodyIff(rs: seq<Record>, body: Bytes)
    ensures FirstTokenBody(rs) == Some(body)
            <==> exists i :: 0 <= i < |rs| && IsFirstToken(rs, i) && rs[i].body == body
    decreases |rs|
  {
    if rs != [] {
      var rest := rs[1..];
      FirstTokenBodyIff(rest, body);
      if rs[0].rtype == 16384 {
        assert IsFirstToken(rs, 0);
      } else {
        forall i | 0 <= i < |rest| ensures IsFirstToken(rest, i) == IsFirstToken(rs, i + 1) {
          FirstTokenShifts(rs, i);
        }
        if exists i :: 0 <= i < |rs| && IsFirstToken(rs, i) && rs[i].body == body {
          var i :| 0 <= i < |rs| && IsFirstToken(rs, i) && rs[i].body == body;
          assert IsFirstToken(rest, i - 1);
        }
        if exists i :: 0 <= i < |rest| && IsFirstToken(rest, i) && rest[i].body == body {
          var i :| 0 <= i < |rest| && IsFirstToken(rest, i) && rest[i].body == body;
          assert IsFirstToken(rs, i + 1);
        }
      }
    }
  }

  /** Record `i` is the first of type 16384. */
  predicate IsFirstToken(rs: seq<Record>, i: nat)
    requires i < |rs|
  {
    rs[i].rtype == 16384 && forall j :: 0 <= j < i ==> rs[j].rtype != 16384
  }

  lemma {:induction false} FirstTokenShifts(rs: seq<Record>, i: nat)
    requires i + 1 < |rs| && rs[0].rtype != 16384
    ensures IsFirstToken(rs[1..], i) == IsFirstToken(rs, i + 1)
  {
    var rest := rs[1..];
    assert forall j :: 0 <= j < i ==> rest[j] == rs[j + 1];
    assert forall j :: 0 < j < i + 1 ==> rs[j] == rest[j - 1];
  }

  /** The token of a request is the non-empty text of its first record of type 16384, wherever that comes, and of no
      other record. */
  lemma {:induction false} AuthTokenIff(decodeText: Bytes -> Option<string>, rs: seq<Record>, text: string)
    requires forall r <- rs :: WellFormed(r)
    ensures AuthToken(decodeText, EncodeAll(rs)) == Some(text)
            <==> text != "" && exists i :: 0 <= i < |rs| && IsFirstToken(rs, i) && decodeText(rs[i].body) == Some(text)
  {
    ParseEncoded(rs);
    var first := FirstTokenBody(rs);
    if first.Some? {
      FirstTokenBodyIff(rs, first.value);
    }
    if exists i :: 0 <= i < |rs| && IsFirstToken(rs, i) {
      var i :| 0 <= i < |rs| && IsFirstToken(rs, i);
      FirstTokenBodyIff(rs, rs[i].body);
    }
  }
}
