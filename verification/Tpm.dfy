/** TPM attestations on the wire (TPM 2.0 Library, Part 2: TPMS_ATTEST and its members):
    the parsers accept exactly the encodings, and give back what was encoded. */
module Tpm {
  import opened Wrappers
  import opened Bits
  import opened Wire
  import opened Primitives

  const GENERATED_VALUE: nat := 0xFF54_4347
  const ST_ATTEST_NV: nat := 0x8014
  const ST_ATTEST_QUOTE: nat := 0x8018
  const CLOCK_INFO_LEN: nat := 17
  const FIRMWARE_VERSION_LEN: nat := 8

  datatype Attest = Attest(
    magic: nat,
    attestType: nat,
    qualifiedSigner: Blob,
    qualifyingData: Blob,
    clockInfo: Blob,
    firmwareVersion: nat,
    attestedRaw: Blob,
    raw: Blob)

  datatype PcrSelection = PcrSelection(hashAlg: nat, pcrSelect: Blob)

  datatype Quote = Quote(
    magic: nat,
    attestType: nat,
    qualifyingData: Blob,
    pcrSelections: seq<PcrSelection>,
    pcrDigest: Blob,
    raw: Blob)

  datatype NvCertifyInfo = NvCertifyInfo(indexName: Blob, offset: nat, nvContents: Blob)

  // ----- encodings

  function AttestBytes(a: Attest): Blob {
    ToBig(a.magic, 4) +
      (ToBig(a.attestType, 2) + (Sized(a.qualifiedSigner) + (Sized(a.qualifyingData) + ClockBytes(a))))
  }

  function ClockBytes(a: Attest): Blob {
    a.clockInfo + (ToBig(a.firmwareVersion, FIRMWARE_VERSION_LEN) + a.attestedRaw)
  }

  /** Every field has its size, and raw is the encoding of the others. */
  predicate Encoded(a: Attest) {
    && Fits(a.magic, 4) && Fits(a.attestType, 2)
    && |a.qualifiedSigner| < 0x1_0000 && |a.qualifyingData| < 0x1_0000
    && |a.clockInfo| == CLOCK_INFO_LEN && Fits(a.firmwareVersion, FIRMWARE_VERSION_LEN)
    && a.raw == AttestBytes(a)
  }

  function SelectionBytes(ss: seq<PcrSelection>, rest: Blob): Blob
    requires forall i :: 0 <= i < |ss| ==> |ss[i].pcrSelect| < 256
  {
    if ss == [] then rest
    else OneSelectionBytes(ss[0], SelectionBytes(ss[1..], rest))
  }

  function OneSelectionBytes(s: PcrSelection, rest: Blob): Blob
    requires |s.pcrSelect| < 256
  {
    ToBig(s.hashAlg, 2) + ([|s.pcrSelect|] + (s.pcrSelect + rest))
  }

  predicate WellSized(ss: seq<PcrSelection>) {
    forall i :: 0 <= i < |ss| ==> Fits(ss[i].hashAlg, 2) && |ss[i].pcrSelect| < 256
  }

  function QuoteInfoBytes(ss: seq<PcrSelection>, digest: Blob): Blob
    requires WellSized(ss)
  {
    ToBig(|ss|, 4) + SelectionBytes(ss, Sized(digest))
  }

  function NvInfoBytes(info: NvCertifyInfo): Blob {
    Sized(info.indexName) + (ToBig(info.offset, 2) + (Sized(info.nvContents) + []))
  }

  predicate NvSized(info: NvCertifyInfo) {
    |info.indexName| < 0x1_0000 && Fits(info.offset, 2) && |info.nvContents| < 0x1_0000
  }

  // ----- framing

  predicate StartsWithMagic(x: Blob) {
    |x| >= 4 && FromBig(x[..4]) == GENERATED_VALUE
  }

  /** data is the structure itself, or the structure behind its two-byte size. */
  predicate Frames(data: Blob, inner: Blob) {
    data == inner || (0 < |inner| < 0x1_0000 && data == Sized(inner))
  }

  method UnwrapAttest(data: Blob) returns (r: Option<Blob>)
    ensures forall inner :: r == Some(inner) <==> |data| >= 6 && StartsWithMagic(inner) && Frames(data, inner)
  {
    if |data| < 6 {
      return None;
    }
    forall inner | StartsWithMagic(inner) && Frames(data, inner) && data != inner
      ensures !StartsWithMagic(data) && data[2..] == inner && FromBig(data[..2]) == |inner|
    {
      SizedHidesMagic(inner);
      SizedReads(data, inner);
    }
    if FromBig(data[0..4]) == GENERATED_VALUE {
      return Some(data);
    }
    var size := FromBig(data[0..2]);
    if 0 < size == |data| - 2 {
      var inner := data[2..2 + size];
      SizedReads(data, inner);
      if |inner| >= 4 && FromBig(inner[0..4]) == GENERATED_VALUE {
        return Some(inner);
      }
    }
    return None;
  }

  lemma SizedReads(data: Blob, inner: Blob)
    ensures |inner| < 0x1_0000 && data == Sized(inner) <==>
            |data| >= 2 && data[2..] == inner && FromBig(data[..2]) == |inner|
  {
    FitsTwo(|inner|);
    if |data| >= 2 {
      assert data == data[..2] + data[2..];
      BigExact(data[..2], |inner|);
    }
  }

  /** No blob can be read under both framings. */
  lemma FramingIsUnambiguous(data: Blob, x: Blob, y: Blob)
    requires StartsWithMagic(x) && StartsWithMagic(y) && Frames(data, x) && Frames(data, y)
    ensures x == y
  {
    if data == x {
      SizedHidesMagic(y);
    } else {
      SizedHidesMagic(x);
      SizedReads(data, x);
      SizedReads(data, y);
    }
  }

  /** A size prefix moves the magic out of the first four bytes. */
  lemma SizedHidesMagic(inner: Blob)
    requires StartsWithMagic(inner)
    ensures !StartsWithMagic(Sized(inner))
  {
    var data := Sized(inner);
    MagicBytes(inner);
    assert data[2] == inner[0] == 0xFF;
    if StartsWithMagic(data) {
      MagicBytes(data);
    }
  }

  lemma MagicBytes(x: Blob)
    requires StartsWithMagic(x)
    ensures x[..4] == [0xFF, 0x54, 0x43, 0x47]
  {
    BigExact(x[..4], GENERATED_VALUE);
    assert ToBig(GENERATED_VALUE, 4) == ToBig(0xFF_5443, 3) + [0x47];
    assert ToBig(0xFF_5443, 3) == ToBig(0xFF54, 2) + [0x43];
    assert ToBig(0xFF54, 2) == ToBig(0xFF, 1) + [0x54];
    assert ToBig(0xFF, 1) == ToBig(0, 0) + [0xFF];
    assert ToBig(GENERATED_VALUE, 4) == [0xFF, 0x54, 0x43, 0x47];
  }

  // ----- the cursor reads of the source

  method ReadU16(buf: Blob, pos: nat) returns (r: Option<(nat, nat)>)
    requires pos <= |buf|
    ensures r.None? <==> ReadBig(buf[pos..], 2).None?
    ensures r.Some? ==> pos <= r.value.1 <= |buf| && ReadBig(buf[pos..], 2) == Some((r.value.0, buf[r.value.1..]))
  {
    if pos + 2 > |buf| {
      return None;
    }
    assert buf[pos..][..2] == buf[pos..pos + 2] && buf[pos..][2..] == buf[pos + 2..];
    return Some((FromBig(buf[pos..pos + 2]), pos + 2));
  }

  method Read2B(buf: Blob, pos: nat) returns (r: Option<(Blob, nat)>)
    requires pos <= |buf|
    ensures r.None? <==> ReadSized(buf[pos..]).None?
    ensures r.Some? ==> pos <= r.value.1 <= |buf| && ReadSized(buf[pos..]) == Some((r.value.0, buf[r.value.1..]))
  {
    var u := ReadU16(buf, pos);
    if u.None? {
      return None;
    }
    var (size, at) := u.value;
    if at + size > |buf| {
      return None;
    }
    assert buf[at..][..size] == buf[at..at + size] && buf[at..][size..] == buf[at + size..];
    return Some((buf[at..at + size], at + size));
  }

  // ----- the common header

  function DecodeClock(buf: Blob): Option<(Blob, nat, Blob)> {
    var clock := ReadBytes(buf, CLOCK_INFO_LEN);
    if clock.None? then None
    else
      var firmware := ReadBig(clock.value.1, FIRMWARE_VERSION_LEN);
      if firmware.None? then None else Some((clock.value.0, firmware.value.0, firmware.value.1))
  }

  function DecodeAttest(inner: Blob): Option<Attest> {
    var magic := ReadBig(inner, 4);
    if magic.None? then None
    else
      var kind := ReadBig(magic.value.1, 2);
      if kind.None? then None
      else
        var signer := ReadSized(kind.value.1);
        if signer.None? then None
        else
          var nonce := ReadSized(signer.value.1);
          if nonce.None? then None
          else
            var clock := DecodeClock(nonce.value.1);
            if clock.None? then None
            else Some(Attest(magic.value.0, kind.value.0, signer.value.0, nonce.value.0,
                             clock.value.0, clock.value.1, clock.value.2, inner))
  }

  lemma ClockExact(buf: Blob, a: Attest)
    ensures DecodeClock(buf) == Some((a.clockInfo, a.firmwareVersion, a.attestedRaw)) <==>
            |a.clockInfo| == CLOCK_INFO_LEN && Fits(a.firmwareVersion, FIRMWARE_VERSION_LEN) && buf == ClockBytes(a)
  {
    var rest := ToBig(a.firmwareVersion, FIRMWARE_VERSION_LEN) + a.attestedRaw;
    ReadBytesExact(buf, CLOCK_INFO_LEN, a.clockInfo, rest);
    ReadBigExact(rest, FIRMWARE_VERSION_LEN, a.firmwareVersion, a.attestedRaw);
    var clock := ReadBytes(buf, CLOCK_INFO_LEN);
    if clock.Some? {
      ReadBytesExact(buf, CLOCK_INFO_LEN, clock.value.0, clock.value.1);
      ReadBigExact(clock.value.1, FIRMWARE_VERSION_LEN, a.firmwareVersion, a.attestedRaw);
    }
  }

  /** The header decodes to a exactly when it is the encoding of a. */
  lemma AttestExact(inner: Blob, a: Attest)
    ensures DecodeAttest(inner) == Some(a) <==> Encoded(a) && inner == a.raw
  {
    if DecodeAttest(inner) == Some(a) {
      DecodedIsEncoded(inner, a);
    }
    if Encoded(a) && inner == a.raw {
      EncodedIsDecoded(inner, a);
    }
  }

  lemma DecodedIsEncoded(inner: Blob, a: Attest)
    requires DecodeAttest(inner) == Some(a)
    ensures Encoded(a) && inner == a.raw
  {
    var r1 := ReadBig(inner, 4).value.1;
    var r2 := ReadBig(r1, 2).value.1;
    var r3 := ReadSized(r2).value.1;
    var r4 := ReadSized(r3).value.1;
    ClockExact(r4, a);
    ReadSizedExact(r3, a.qualifyingData, r4);
    ReadSizedExact(r2, a.qualifiedSigner, r3);
    ReadBigExact(r1, 2, a.attestType, r2);
    ReadBigExact(inner, 4, a.magic, r1);
  }

  lemma EncodedIsDecoded(inner: Blob, a: Attest)
    requires Encoded(a) && inner == a.raw
    ensures DecodeAttest(inner) == Some(a)
  {
    var r4 := ClockBytes(a);
    var r3 := Sized(a.qualifyingData) + r4;
    var r2 := Sized(a.qualifiedSigner) + r3;
    var r1 := ToBig(a.attestType, 2) + r2;
    ReadBigExact(inner, 4, a.magic, r1);
    ReadBigExact(r1, 2, a.attestType, r2);
    ReadSizedExact(r2, a.qualifiedSigner, r3);
    ReadSizedExact(r3, a.qualifyingData, r4);
    ClockExact(r4, a);
  }

  /** Accepts exactly the framed encodings of attestations with the TPM's magic. */
  method ParseAttest(data: Blob) returns (r: Option<Attest>)
    ensures forall a :: r == Some(a) <==> Encoded(a) && a.magic == GENERATED_VALUE && Frames(data, a.raw)
  {
    var unwrapped := UnwrapAttest(data);
    forall a
      ensures Encoded(a) && a.magic == GENERATED_VALUE && Frames(data, a.raw) <==>
              unwrapped == Some(a.raw) && DecodeAttest(a.raw) == Some(a)
    {
      AttestExact(a.raw, a);
      if Encoded(a) {
        AttestStartsWithMagic(a);
      }
    }
    if unwrapped.None? {
      return None;
    }
    var attest := unwrapped.value;
    r := ParseHeader(attest);
    assert DecodeAttest(attest).Some? ==> DecodeAttest(attest).value.raw == attest;
  }

  method ParseHeader(attest: Blob) returns (r: Option<Attest>)
    ensures r == DecodeAttest(attest)
  {
    if |attest| < 6 {
      return None;
    }
    var magic := FromBig(attest[0..4]);
    var kind := ReadU16(attest, 4);
    if kind.None? {
      return None;
    }
    var signer := Read2B(attest, kind.value.1);
    if signer.None? {
      return None;
    }
    var nonce := Read2B(attest, signer.value.1);
    if nonce.None? {
      return None;
    }
    var pos := nonce.value.1;
    if pos + CLOCK_INFO_LEN + FIRMWARE_VERSION_LEN > |attest| {
      return None;
    }
    ClockAt(attest, pos);
    var clock := attest[pos..pos + CLOCK_INFO_LEN];
    pos := pos + CLOCK_INFO_LEN;
    var firmware := FromBig(attest[pos..pos + FIRMWARE_VERSION_LEN]);
    pos := pos + FIRMWARE_VERSION_LEN;
    return Some(Attest(magic, kind.value.0, signer.value.0, nonce.value.0, clock, firmware, attest[pos..], attest));
  }

  lemma ClockAt(buf: Blob, pos: nat)
    requires pos + CLOCK_INFO_LEN + FIRMWARE_VERSION_LEN <= |buf|
    ensures var mid, end := pos + CLOCK_INFO_LEN, pos + CLOCK_INFO_LEN + FIRMWARE_VERSION_LEN;
            DecodeClock(buf[pos..]) == Some((buf[pos..mid], FromBig(buf[mid..end]), buf[end..]))
  {
    var mid, end := pos + CLOCK_INFO_LEN, pos + CLOCK_INFO_LEN + FIRMWARE_VERSION_LEN;
    assert buf[pos..][..CLOCK_INFO_LEN] == buf[pos..mid] && buf[pos..][CLOCK_INFO_LEN..] == buf[mid..];
    assert buf[mid..][..FIRMWARE_VERSION_LEN] == buf[mid..end] && buf[mid..][FIRMWARE_VERSION_LEN..] == buf[end..];
  }

  lemma AttestStartsWithMagic(a: Attest)
    requires Encoded(a)
    ensures |a.raw| >= 6 && (StartsWithMagic(a.raw) <==> a.magic == GENERATED_VALUE)
  {
    assert a.raw[..4] == ToBig(a.magic, 4);
    BigExact(a.raw[..4], a.magic);
  }

  // ----- quotes

  function DecodeSelection(buf: Blob): Option<(PcrSelection, Blob)> {
    var alg := ReadBig(buf, 2);
    if alg.None? then None
    else
      var size := ReadBytes(alg.value.1, 1);
      if size.None? then None
      else
        var bitmap := ReadBytes(size.value.1, size.value.0[0]);
        if bitmap.None? then None else Some((PcrSelection(alg.value.0, bitmap.value.0), bitmap.value.1))
  }

  function DecodeSelections(buf: Blob, count: nat): Option<(seq<PcrSelection>, Blob)> {
    if count == 0 then Some(([], buf))
    else
      var first := DecodeSelection(buf);
      if first.None? then None else Before([first.value.0], DecodeSelections(first.value.1, count - 1))
  }

  function Before(ss: seq<PcrSelection>, r: Option<(seq<PcrSelection>, Blob)>): Option<(seq<PcrSelection>, Blob)> {
    if r.None? then None else Some((ss + r.value.0, r.value.1))
  }

  function DecodeQuoteInfo(body: Blob): Option<(seq<PcrSelection>, Blob)> {
    var count := ReadBig(body, 4);
    if count.None? then None
    else
      var ss := DecodeSelections(count.value.1, count.value.0);
      if ss.None? then None
      else
        var digest := ReadSized(ss.value.1);
        if digest.None? || digest.value.1 != [] then None else Some((ss.value.0, digest.value.0))
  }

  lemma SelectionExact(buf: Blob, s: PcrSelection, rest: Blob)
    ensures DecodeSelection(buf) == Some((s, rest)) <==>
            Fits(s.hashAlg, 2) && |s.pcrSelect| < 256 && buf == OneSelectionBytes(s, rest)
  {
    var alg := ReadBig(buf, 2);
    if alg.Some? {
      ReadBigExact(buf, 2, s.hashAlg, alg.value.1);
    }
    if |s.pcrSelect| < 256 {
      var r2 := s.pcrSelect + rest;
      var r1 := [|s.pcrSelect|] + r2;
      ReadBigExact(buf, 2, s.hashAlg, r1);
      ReadBytesExact(r1, 1, [|s.pcrSelect|], r2);
      ReadBytesExact(r2, |s.pcrSelect|, s.pcrSelect, rest);
      if DecodeSelection(buf) == Some((s, rest)) {
        assert alg.value.1 == [alg.value.1[0]] + alg.value.1[1..];
      }
    }
  }

  lemma {:induction false} SelectionsExact(buf: Blob, ss: seq<PcrSelection>, rest: Blob)
    ensures DecodeSelections(buf, |ss|) == Some((ss, rest)) <==> WellSized(ss) && buf == SelectionBytes(ss, rest)
    decreases |ss|, 1
  {
    if ss != [] {
      var first := DecodeSelection(buf);
      if first.Some? {
        DecodedSelections(buf, first.value.0, first.value.1, ss, ss[1..], rest);
      }
      if WellSized(ss) {
        EncodedSelections(SelectionBytes(ss[1..], rest), ss, ss[1..], rest);
      }
    }
  }

  lemma FirstDecoded(buf: Blob, s: PcrSelection, after: Blob, n: nat, k: nat)
    requires DecodeSelection(buf) == Some((s, after)) && n == k + 1
    ensures DecodeSelections(buf, n) == Before([s], DecodeSelections(after, k))
  {
  }

  lemma FirstEncoded(ss: seq<PcrSelection>, more: seq<PcrSelection>, rest: Blob)
    requires ss != [] && more == ss[1..] && forall i :: 0 <= i < |ss| ==> |ss[i].pcrSelect| < 256
    ensures SelectionBytes(ss, rest) == OneSelectionBytes(ss[0], SelectionBytes(more, rest))
  {
  }

  lemma BeforeIs(s: PcrSelection, r: Option<(seq<PcrSelection>, Blob)>, ss: seq<PcrSelection>, more: seq<PcrSelection>,
                 rest: Blob)
    requires ss != [] && more == ss[1..]
    ensures Before([s], r) == Some((ss, rest)) <==> s == ss[0] && r == Some((more, rest))
  {
    if r.Some? {
      assert ([s] + r.value.0)[0] == s && ([s] + r.value.0)[1..] == r.value.0;
      assert ss == [ss[0]] + more;
    }
  }

  lemma {:induction false} DecodedSelections(buf: Blob, s: PcrSelection, after: Blob, ss: seq<PcrSelection>,
                                             more: seq<PcrSelection>, rest: Blob)
    requires ss != [] && more == ss[1..] && DecodeSelection(buf) == Some((s, after))
    ensures DecodeSelections(buf, |ss|) == Some((ss, rest)) ==> WellSized(ss) && buf == SelectionBytes(ss, rest)
    decreases |ss|, 0
  {
    FirstDecoded(buf, s, after, |ss|, |more|);
    BeforeIs(s, DecodeSelections(after, |more|), ss, more, rest);
    if DecodeSelections(buf, |ss|) == Some((ss, rest)) {
      SelectionExact(buf, s, after);
      SelectionsExact(after, more, rest);
      FirstEncoded(ss, more, rest);
      assert ss == [s] + more;
    }
  }

  lemma {:induction false} EncodedSelections(after: Blob, ss: seq<PcrSelection>, more: seq<PcrSelection>, rest: Blob)
    requires ss != [] && more == ss[1..] && WellSized(ss) && after == SelectionBytes(more, rest)
    ensures DecodeSelections(SelectionBytes(ss, rest), |ss|) == Some((ss, rest))
    decreases |ss|, 0
  {
    var buf := SelectionBytes(ss, rest);
    FirstEncoded(ss, more, rest);
    SelectionExact(buf, ss[0], after);
    SelectionsExact(after, more, rest);
    FirstDecoded(buf, ss[0], after, |ss|, |more|);
    BeforeIs(ss[0], DecodeSelections(after, |more|), ss, more, rest);
  }

  lemma {:induction false} SelectionsLength(buf: Blob, count: nat)
    ensures DecodeSelections(buf, count).Some? ==> |DecodeSelections(buf, count).value.0| == count
  {
    if count > 0 && DecodeSelection(buf).Some? {
      SelectionsLength(DecodeSelection(buf).value.1, count - 1);
    }
  }

  /** A body decodes exactly when it is the encoding, with nothing after the digest. */
  lemma QuoteInfoExact(body: Blob, ss: seq<PcrSelection>, digest: Blob)
    ensures DecodeQuoteInfo(body) == Some((ss, digest)) <==>
            WellSized(ss) && Fits(|ss|, 4) && |digest| < 0x1_0000 && body == QuoteInfoBytes(ss, digest)
  {
    var count := ReadBig(body, 4);
    if DecodeQuoteInfo(body) == Some((ss, digest)) {
      var r1 := count.value.1;
      SelectionsLength(r1, count.value.0);
      ReadBigExact(body, 4, |ss|, r1);
      var r2 := DecodeSelections(r1, |ss|).value.1;
      SelectionsExact(r1, ss, r2);
      ReadSizedExact(r2, digest, []);
      assert Sized(digest) + [] == Sized(digest);
    }
    if WellSized(ss) && Fits(|ss|, 4) && |digest| < 0x1_0000 && body == QuoteInfoBytes(ss, digest) {
      var r1 := SelectionBytes(ss, Sized(digest));
      ReadBigExact(body, 4, |ss|, r1);
      SelectionsExact(r1, ss, Sized(digest));
      assert Sized(digest) + [] == Sized(digest);
      ReadSizedExact(Sized(digest), digest, []);
    }
  }

  method ParseQuoteInfo(attested: Blob) returns (r: Option<(seq<PcrSelection>, Blob)>)
    ensures r == DecodeQuoteInfo(attested)
  {
    var pos := 0;
    if pos + 4 > |attested| {
      return None;
    }
    var count := FromBig(attested[pos..pos + 4]);
    pos := pos + 4;
    var selections := ParseSelections(attested, pos, count);
    if selections.None? {
      return None;
    }
    pos := selections.value.1;
    var digest := Read2B(attested, pos);
    if digest.None? {
      return None;
    }
    if digest.value.1 != |attested| {
      return None;
    }
    return Some((selections.value.0, digest.value.0));
  }

  method ParseSelections(attested: Blob, start: nat, count: nat) returns (r: Option<(seq<PcrSelection>, nat)>)
    requires start <= |attested|
    ensures r.None? <==> DecodeSelections(attested[start..], count).None?
    ensures r.Some? ==> && start <= r.value.1 <= |attested|
                        && DecodeSelections(attested[start..], count) == Some((r.value.0, attested[r.value.1..]))
  {
    var pos := start;
    var selections: seq<PcrSelection> := [];
    ghost var all, left := DecodeSelections(attested[start..], count), count;
    BeforeNothing(all);
    for i := 0 to count
      invariant start <= pos <= |attested| && left == count - i
      invariant all == Before(selections, DecodeSelections(attested[pos..], left))
    {
      SelectionAt(attested, pos);
      NoSelection(all, attested[pos..], selections, left);
      if pos + 3 > |attested| {
        return None;
      }
      var hashAlg := FromBig(attested[pos..pos + 2]);
      var size := attested[pos + 2];
      var end := pos + 3 + size;
      if end > |attested| {
        return None;
      }
      var s := PcrSelection(hashAlg, attested[pos + 3..end]);
      left := left - 1;
      NextSelection(all, attested[pos..], s, attested[end..], selections, left);
      selections := selections + [s];
      pos := end;
    }
    assert selections + [] == selections;
    return Some((selections, pos));
  }

  lemma NoSelection(all: Option<(seq<PcrSelection>, Blob)>, buf: Blob, ss: seq<PcrSelection>, left: nat)
    requires all == Before(ss, DecodeSelections(buf, left)) && left > 0
    ensures DecodeSelection(buf).None? ==> all.None?
  {
  }

  lemma NextSelection(all: Option<(seq<PcrSelection>, Blob)>, buf: Blob, s: PcrSelection, after: Blob,
                      ss: seq<PcrSelection>, left: nat)
    requires all == Before(ss, DecodeSelections(buf, left + 1)) && DecodeSelection(buf) == Some((s, after))
    ensures all == Before(ss + [s], DecodeSelections(after, left))
  {
    FirstDecoded(buf, s, after, left + 1, left);
    BeforeTwice(ss, s, DecodeSelections(after, left));
  }

  lemma BeforeNothing(r: Option<(seq<PcrSelection>, Blob)>)
    ensures Before([], r) == r
  {
    if r.Some? {
      assert [] + r.value.0 == r.value.0;
    }
  }

  lemma SelectionAt(buf: Blob, pos: nat)
    requires pos <= |buf|
    ensures DecodeSelection(buf[pos..]).None? <==> pos + 3 > |buf| || pos + 3 + buf[pos + 2] > |buf|
    ensures pos + 3 <= |buf| && pos + 3 + buf[pos + 2] <= |buf| ==>
              DecodeSelection(buf[pos..]) ==
              Some((PcrSelection(FromBig(buf[pos..pos + 2]), buf[pos + 3..pos + 3 + buf[pos + 2]]),
                    buf[pos + 3 + buf[pos + 2]..]))
  {
    var b := buf[pos..];
    if |b| >= 3 {
      var size: nat := buf[pos + 2];
      assert b[..2] == buf[pos..pos + 2] && b[2..][..1] == [size] && b[2..][1..] == buf[pos + 3..];
      if pos + 3 + size <= |buf| {
        assert buf[pos + 3..][..size] == buf[pos + 3..pos + 3 + size] &&
               buf[pos + 3..][size..] == buf[pos + 3 + size..];
      }
    }
  }

  lemma BeforeTwice(ss: seq<PcrSelection>, s: PcrSelection, r: Option<(seq<PcrSelection>, Blob)>)
    ensures Before(ss, Before([s], r)) == Before(ss + [s], r)
  {
    if r.Some? {
      assert ss + ([s] + r.value.0) == (ss + [s]) + r.value.0;
    }
  }

  /** data frames the signed structure a, and q is the quote in it. */
  ghost predicate IsQuote(data: Blob, a: Attest, q: Quote) {
    && Encoded(a) && a.magic == GENERATED_VALUE && Frames(data, a.raw)
    && a.attestType == ST_ATTEST_QUOTE
    && WellSized(q.pcrSelections) && Fits(|q.pcrSelections|, 4) && |q.pcrDigest| < 0x1_0000
    && a.attestedRaw == QuoteInfoBytes(q.pcrSelections, q.pcrDigest)
    && q == Quote(a.magic, a.attestType, a.qualifyingData, q.pcrSelections, q.pcrDigest, a.raw)
  }

  /** Accepts exactly the framed encodings of quotes; raw is every byte that was signed. */
  method ParseQuote(data: Blob) returns (r: Option<Quote>)
    ensures forall q :: r == Some(q) <==> exists a :: IsQuote(data, a, q)
  {
    var common := ParseAttest(data);
    forall a, q
      ensures IsQuote(data, a, q) <==>
              && common == Some(a) && a.attestType == ST_ATTEST_QUOTE
              && DecodeQuoteInfo(a.attestedRaw) == Some((q.pcrSelections, q.pcrDigest))
              && q == Quote(a.magic, a.attestType, a.qualifyingData, q.pcrSelections, q.pcrDigest, a.raw)
    {
      QuoteInfoExact(a.attestedRaw, q.pcrSelections, q.pcrDigest);
    }
    if common.None? {
      return None;
    }
    var a := common.value;
    if a.attestType != ST_ATTEST_QUOTE {
      return None;
    }
    var info := ParseQuoteInfo(a.attestedRaw);
    if info.None? {
      return None;
    }
    var q := Quote(a.magic, a.attestType, a.qualifyingData, info.value.0, info.value.1, a.raw);
    assert IsQuote(data, a, q);
    return Some(q);
  }

  /** A quote is the same quote bare and behind its size, whenever it fits in one. */
  lemma BothFramingsQuote(a: Attest, q: Quote)
    requires |a.raw| < 0x1_0000
    ensures IsQuote(a.raw, a, q) <==> IsQuote(Sized(a.raw), a, q)
  {
  }

  /** One blob holds one quote. */
  lemma QuoteIsUnique(data: Blob, a: Attest, q: Quote, b: Attest, p: Quote)
    requires IsQuote(data, a, q) && IsQuote(data, b, p)
    ensures a == b && q == p
  {
    AttestStartsWithMagic(a);
    AttestStartsWithMagic(b);
    FramingIsUnambiguous(data, a.raw, b.raw);
    AttestExact(a.raw, a);
    AttestExact(b.raw, b);
    QuoteInfoExact(a.attestedRaw, q.pcrSelections, q.pcrDigest);
    QuoteInfoExact(a.attestedRaw, p.pcrSelections, p.pcrDigest);
  }

  // ----- NV certifications

  function DecodeNvInfo(body: Blob): Option<NvCertifyInfo> {
    var name := ReadSized(body);
    if name.None? then None
    else
      var offset := ReadBig(name.value.1, 2);
      if offset.None? then None
      else
        var contents := ReadSized(offset.value.1);
        if contents.None? || contents.value.1 != [] then None
        else Some(NvCertifyInfo(name.value.0, offset.value.0, contents.value.0))
  }

  method ParseNvCertifyInfo(attested: Blob) returns (r: Option<NvCertifyInfo>)
    ensures forall info :: r == Some(info) <==>
              NvSized(info) && attested == NvInfoBytes(info)
  {
    forall info
      ensures DecodeNvInfo(attested) == Some(info) <==>
                NvSized(info) && attested == NvInfoBytes(info)
    {
      NvInfoExact(attested, info);
    }
    assert attested[0..] == attested;
    var name := Read2B(attested, 0);
    if name.None? {
      return None;
    }
    var offset := ReadU16(attested, name.value.1);
    if offset.None? {
      return None;
    }
    var contents := Read2B(attested, offset.value.1);
    if contents.None? {
      return None;
    }
    if contents.value.1 != |attested| {
      return None;
    }
    return Some(NvCertifyInfo(name.value.0, offset.value.0, contents.value.0));
  }

  lemma NvInfoExact(body: Blob, info: NvCertifyInfo)
    ensures DecodeNvInfo(body) == Some(info) <==>
              NvSized(info) && body == NvInfoBytes(info)
  {
    if DecodeNvInfo(body) == Some(info) {
      var r1 := ReadSized(body).value.1;
      var r2 := ReadBig(r1, 2).value.1;
      ReadSizedExact(r2, info.nvContents, []);
      ReadBigExact(r1, 2, info.offset, r2);
      ReadSizedExact(body, info.indexName, r1);
    }
    if NvSized(info) && body == NvInfoBytes(info) {
      var r2 := Sized(info.nvContents) + [];
      var r1 := ToBig(info.offset, 2) + r2;
      ReadSizedExact(body, info.indexName, r1);
      ReadBigExact(r1, 2, info.offset, r2);
      ReadSizedExact(r2, info.nvContents, []);
    }
  }

  /** A certification of NV contents is never mistaken for a quote. */
  method ParseNvCertify(data: Blob) returns (r: Option<(Attest, NvCertifyInfo)>)
    ensures forall a: Attest, info: NvCertifyInfo :: r == Some((a, info)) <==>
              && Encoded(a) && a.magic == GENERATED_VALUE && Frames(data, a.raw) && a.attestType == ST_ATTEST_NV
              && NvSized(info)
              && a.attestedRaw == NvInfoBytes(info)
  {
    var common := ParseAttest(data);
    if common.None? {
      return None;
    }
    if common.value.attestType != ST_ATTEST_NV {
      return None;
    }
    var info := ParseNvCertifyInfo(common.value.attestedRaw);
    if info.None? {
      return None;
    }
    return Some((common.value, info.value));
  }

  // ----- selected registers

  /** Bit k of a byte. */
  predicate BitSet(b: nat, k: nat) {
    Shift(b, k) % 2 == 1
  }

  /** `PcrSelection.indices`: bit j of byte i selects register 8 * i + j. */
  method Indices(bitmap: Blob) returns (selected: set<nat>)
    ensures forall r: nat :: r in selected <==> r < 8 * |bitmap| && BitSet(bitmap[r / 8], r % 8)
  {
    selected := {};
    for i := 0 to |bitmap|
      invariant forall r: nat :: r in selected <==> r < 8 * i && BitSet(bitmap[r / 8], r % 8)
    {
      for bit := 0 to 8
        invariant forall r: nat :: r in selected <==> r < 8 * i + bit && BitSet(bitmap[r / 8], r % 8)
      {
        assert (8 * i + bit) / 8 == i && (8 * i + bit) % 8 == bit;
        if BitSet(bitmap[i], bit) {
          selected := selected + {8 * i + bit};
        }
      }
    }
  }

  lemma {:induction false} BitsDetermine(a: nat, b: nat, width: nat)
    requires Shift(a, width) == 0 && Shift(b, width) == 0
    requires forall k :: 0 <= k < width ==> BitSet(a, k) == BitSet(b, k)
    ensures a == b
  {
    if width > 0 {
      assert BitSet(a, 0) == BitSet(b, 0);
      forall k | 0 <= k < width - 1
        ensures BitSet(a / 2, k) == BitSet(b / 2, k)
      {
        assert BitSet(a, k + 1) == BitSet(b, k + 1);
      }
      BitsDetermine(a / 2, b / 2, width - 1);
    }
  }

  lemma OctetEndsAtEight(b: Octet)
    ensures Shift(b, 8) == 0
  {
    assert Shift(b, 8) == Shift(b / 2, 7) == Shift(b / 2 / 2, 6) == Shift(b / 2 / 2 / 2, 5) ==
           Shift(b / 2 / 2 / 2 / 2, 4);
    var c := b / 2 / 2 / 2 / 2;
    assert Shift(c, 4) == Shift(c / 2, 3) == Shift(c / 2 / 2, 2) == Shift(c / 2 / 2 / 2, 1) ==
           Shift(c / 2 / 2 / 2 / 2, 0);
  }

  /** Bitmaps of one length that select the same registers are the same bitmap. */
  lemma SelectionDeterminesBitmap(x: Blob, y: Blob)
    requires |x| == |y|
    ensures (forall r: nat :: r < 8 * |x| ==> BitSet(x[r / 8], r % 8) == BitSet(y[r / 8], r % 8)) <==> x == y
  {
    if forall r: nat :: r < 8 * |x| ==> BitSet(x[r / 8], r % 8) == BitSet(y[r / 8], r % 8) {
      forall i | 0 <= i < |x|
        ensures x[i] == y[i]
      {
        forall k | 0 <= k < 8
          ensures BitSet(x[i], k) == BitSet(y[i], k)
        {
          var r := 8 * i + k;
          assert r / 8 == i && r % 8 == k;
          assert BitSet(x[r / 8], r % 8) == BitSet(y[r / 8], r % 8);
        }
        OctetEndsAtEight(x[i]);
        OctetEndsAtEight(y[i]);
        BitsDetermine(x[i], y[i], 8);
      }
    }
  }
}
