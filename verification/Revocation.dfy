/** The file-backed revocation list: its cache against the file, over reloads and runs. */
module Revocation {
  import opened Wrappers
  import opened Whitespace
  import opened Signing
  import opened Records
  import S = Statements

  datatype Record = Record(manifestId: string, revokedAt: string, reason: string, revokedBy: string,
                           signature: Option<string>, signerKeyId: Option<string>)

  /** How records are written and read, the ids of keys, the signature scheme over statements,
      and the size of a text on disk. */
  datatype Codec = Codec(
    encode: Record -> string,
    decode: string -> Option<Record>,
    keyId: string -> string,
    check: (string, S.Statement, string) -> bool,
    size: string -> nat)

  /** The trusted signer key; None in development mode. */
  type Trust = Option<string>

  datatype CrlError = TooLarge | IntegrityError | InvalidSignature

  const MAX_BYTES: nat := 50 * 1024 * 1024
  const MAX_RECORDS: nat := 1_000_000

  /** Characters that 64 bytes take in base64url. */
  const SIGNATURE_CHARS: nat := 86

  // ----- one record

  /** What the signature of a record covers. */
  function SignedRevocation(r: Record): S.Statement {
    S.Revocation(Name(r.manifestId), Name(r.revokedAt), Name(r.reason), Name(r.revokedBy))
  }

  predicate Verifies(c: Codec, key: string, r: Record) {
    && r.signature.Some? && |r.signature.value| >= SIGNATURE_CHARS && r.signerKeyId == Some(c.keyId(key))
    && c.check(key, SignedRevocation(r), r.signature.value)
  }

  /** `verify_revocation_signature` */
  method VerifyRevocationSignature(c: Codec, key: string, r: Record) returns (ok: bool)
    ensures ok <==> Verifies(c, key, r)
  {
    if r.signature.None? || r.signature.value == "" {
      return false;
    }
    if r.signerKeyId.None? || r.signerKeyId.value != c.keyId(key) {
      return false;
    }
    if |r.signature.value| < SIGNATURE_CHARS {
      return false;
    }
    return c.check(key, SignedRevocation(r), r.signature.value);
  }

  /** A record verifies exactly with a signature of at least 86 characters that the scheme
      accepts under the key, over the record's own fields, and with the key's id. */
  lemma VerifiesExactly(c: Codec, key: string, r: Record)
    ensures Verifies(c, key, r) <==>
            match (r.signature, r.signerKeyId)
            case (Some(signature), Some(id)) =>
              && |signature| >= 86 && id == c.keyId(key)
              && c.check(key, S.Revocation(Name(r.manifestId), Name(r.revokedAt), Name(r.reason), Name(r.revokedBy)),
                         signature)
            case _ => false
  {
  }

  /** The signed bytes settle the record: two records are signed over the same bytes exactly
      when manifest, date, reason and authority are the same. */
  lemma SignedBytesSettleRevocation(r: Record, q: Record)
    requires S.Signed(SignedRevocation(r)).Ok? && S.Signed(SignedRevocation(q)).Ok?
    ensures S.Signed(SignedRevocation(r)) == S.Signed(SignedRevocation(q)) <==>
            && r.manifestId == q.manifestId && r.revokedAt == q.revokedAt
            && r.reason == q.reason && r.revokedBy == q.revokedBy
  {
    S.BytesBindStatement(SignedRevocation(r), SignedRevocation(q));
    NameInjective(r.manifestId, q.manifestId);
    NameInjective(r.revokedAt, q.revokedAt);
    NameInjective(r.reason, q.reason);
    NameInjective(r.revokedBy, q.revokedBy);
  }

  // ----- what a file says

  /** The record a line holds, if it holds one. */
  function Entry(c: Codec, line: string): seq<Record> {
    var s := Strip(line);
    if s == "" || c.decode(s).None? then [] else [c.decode(s).value]
  }

  function Entries(c: Codec, lines: seq<string>): seq<Record> {
    if lines == [] then [] else Entries(c, lines[..|lines| - 1]) + Entry(c, lines[|lines| - 1])
  }

  function LastWins(rs: seq<Record>): (m: map<string, Record>)
    ensures forall k :: k in m <==> exists i :: 0 <= i < |rs| && rs[i].manifestId == k
  {
    if rs == [] then map[] else LastWins(rs[..|rs| - 1])[rs[|rs| - 1].manifestId := rs[|rs| - 1]]
  }

  predicate Trusted(c: Codec, trust: Trust, r: Record) {
    trust.Some? ==> Verifies(c, trust.value, r)
  }

  /** A line that an authenticated list may hold. */
  predicate Sound(c: Codec, trust: Trust, line: string) {
    var s := Strip(line);
    trust.None? || s == "" || (c.decode(s).Some? && Verifies(c, trust.value, c.decode(s).value))
  }

  /** One line of the loading loop. */
  function Step(c: Codec, trust: Trust, loaded: seq<Record>, line: string): Result<seq<Record>, CrlError> {
    var s := Strip(line);
    if s == "" then Ok(loaded)
    else if |loaded| >= MAX_RECORDS then Err(TooLarge)
    else if c.decode(s).None? then if trust.Some? then Err(IntegrityError) else Ok(loaded)
    else if !Trusted(c, trust, c.decode(s).value) then Err(IntegrityError)
    else Ok(loaded + [c.decode(s).value])
  }

  function Scan(c: Codec, trust: Trust, lines: seq<string>): Result<seq<Record>, CrlError> {
    if lines == [] then Ok([])
    else
      var before := Scan(c, trust, lines[..|lines| - 1]);
      if before.Err? then before else Step(c, trust, before.value, lines[|lines| - 1])
  }

  function Loaded(c: Codec, trust: Trust, content: string): Result<map<string, Record>, CrlError> {
    if c.size(content) > MAX_BYTES then Err(TooLarge)
    else
      var records := Scan(c, trust, Lines(content));
      if records.Err? then Err(records.error) else Ok(LastWins(records.value))
  }

  /** Every non-blank line is met with fewer records before it than the limit. */
  ghost predicate FewEnough(c: Codec, lines: seq<string>) {
    forall i :: 0 <= i < |lines| && Strip(lines[i]) != "" ==> |Entries(c, lines[..i])| < MAX_RECORDS
  }

  ghost predicate AllSound(c: Codec, trust: Trust, lines: seq<string>) {
    forall i :: 0 <= i < |lines| ==> Sound(c, trust, lines[i])
  }

  lemma StepExact(c: Codec, trust: Trust, loaded: seq<Record>, line: string)
    ensures Step(c, trust, loaded, line).Ok? <==>
            (Strip(line) != "" ==> |loaded| < MAX_RECORDS) && Sound(c, trust, line)
    ensures Step(c, trust, loaded, line).Ok? ==> Step(c, trust, loaded, line).value == loaded + Entry(c, line)
  {
  }

  lemma ScanLast(c: Codec, trust: Trust, lines: seq<string>, init: seq<string>, line: string)
    requires lines == init + [line]
    ensures var before := Scan(c, trust, init);
            Scan(c, trust, lines) == if before.Err? then before else Step(c, trust, before.value, line)
    ensures Entries(c, lines) == Entries(c, init) + Entry(c, line)
  {
  }

  lemma FewEnoughLast(c: Codec, lines: seq<string>, init: seq<string>, line: string)
    requires lines == init + [line]
    ensures FewEnough(c, lines) <==> FewEnough(c, init) && (Strip(line) != "" ==> |Entries(c, init)| < MAX_RECORDS)
  {
    assert lines[..|init|] == init;
    assert forall i :: 0 <= i < |init| ==> lines[i] == init[i] && lines[..i] == init[..i];
    assert lines[|init|] == line;
  }

  /** The loop yields all records of the file, or none: none exactly when there are too
      many, or when a line is unsound. */
  lemma {:induction false} ScanExact(c: Codec, trust: Trust, lines: seq<string>)
    ensures Scan(c, trust, lines).Ok? <==> FewEnough(c, lines) && AllSound(c, trust, lines)
    ensures Scan(c, trust, lines).Ok? ==> Scan(c, trust, lines).value == Entries(c, lines)
  {
    if lines != [] {
      var k := |lines| - 1;
      var init, line := lines[..k], lines[k];
      ScanExact(c, trust, init);
      FewEnoughLast(c, lines, init, line);
      AllSoundLast(c, trust, lines, init, line);
      ScanLast(c, trust, lines, init, line);
      if Scan(c, trust, init).Ok? {
        StepExact(c, trust, Scan(c, trust, init).value, line);
      }
    }
  }

  lemma AllSoundLast(c: Codec, trust: Trust, lines: seq<string>, init: seq<string>, line: string)
    requires lines == init + [line]
    ensures AllSound(c, trust, lines) <==> AllSound(c, trust, init) && Sound(c, trust, line)
  {
    assert forall i :: 0 <= i < |init| ==> lines[i] == init[i];
    assert lines[|init|] == line;
  }

  // ----- the list

  /** The file on disk: its text, None when there is no file. */
  class File {
    var content: Option<string>

    constructor (content: Option<string>)
      ensures this.content == content
    {
      this.content := content;
    }
  }

  class FileCrl {
    const codec: Codec
    const trust: Trust
    const file: File
    var cache: map<string, Record>

    constructor (codec: Codec, trust: Trust, file: File)
      ensures this.codec == codec && this.trust == trust && this.file == file && cache == map[]
    {
      this.codec, this.trust, this.file, cache := codec, trust, file, map[];
    }

    /** Opens a list; a file that cannot be loaded yields none. */
    static method Open(codec: Codec, trust: Trust, file: File) returns (crl: FileCrl, error: Option<CrlError>)
      ensures fresh(crl) && crl.codec == codec && crl.trust == trust && crl.file == file
      ensures file.content == None ==> error == None && crl.cache == map[]
      ensures file.content.Some? ==>
                match Loaded(codec, trust, file.content.value)
                case Ok(m) => error == None && crl.cache == m
                case Err(e) => error == Some(e) && crl.cache == map[]
      ensures error == None ==> InSync(codec, trust, State(crl.Text(), crl.cache))
    {
      crl := new FileCrl(codec, trust, file);
      error := None;
      LoadSyncs(codec, trust, crl.Text());
      if file.content.Some? {
        error := crl.Load();
      } else {
        EmptyInSync(codec, trust);
      }
    }

    /** Reads the file; the cache changes as a whole or not at all. */
    method Load() returns (error: Option<CrlError>)
      requires file.content.Some?
      modifies this`cache
      ensures match Loaded(codec, trust, file.content.value)
              case Ok(m) => error == None && cache == m
              case Err(e) => error == Some(e) && cache == old(cache)
    {
      var content := file.content.value;
      if codec.size(content) > MAX_BYTES {
        return Some(TooLarge);
      }
      var lines := Lines(content);
      var loaded: map<string, Record> := map[];
      var count := 0;
      ghost var records: seq<Record> := [];
      for i := 0 to |lines|
        invariant cache == old(cache)
        invariant Scan(codec, trust, lines[..i]) == Ok(records)
        invariant loaded == LastWins(records) && count == |records|
      {
        var line := Strip(lines[i]);
        ScanNext(codec, trust, lines, i);
        if line == "" {
          continue;
        }
        if count >= MAX_RECORDS {
          ScanFails(codec, trust, lines, i + 1);
          return Some(TooLarge);
        }
        var rec := codec.decode(line);
        if rec.None? {
          if trust.Some? {
            ScanFails(codec, trust, lines, i + 1);
            return Some(IntegrityError);
          }
          continue;
        }
        if trust.Some? {
          var ok := VerifyRevocationSignature(codec, trust.value, rec.value);
          if !ok {
            ScanFails(codec, trust, lines, i + 1);
            return Some(IntegrityError);
          }
        }
        loaded := loaded[rec.value.manifestId := rec.value];
        count := count + 1;
        assert (records + [rec.value])[..|records|] == records;
        records := records + [rec.value];
      }
      assert lines[..|lines|] == lines;
      cache := loaded;
      return None;
    }

    /** Adds a record to the cache and the end of the file. */
    method Revoke(record: Record) returns (error: Option<CrlError>)
      modifies this`cache, file
      ensures error == None <==> Trusted(codec, trust, record)
      ensures error == None ==>
                && cache == old(cache)[record.manifestId := record]
                && file.content == Some(old(Text()) + (codec.encode(record) + "\n"))
      ensures error != None ==>
                error == Some(InvalidSignature) && cache == old(cache) && file.content == old(file.content)
      ensures State(Text(), cache) == AfterRevoke(codec, trust, old(State(Text(), cache)), record)
    {
      if trust.Some? {
        var ok := VerifyRevocationSignature(codec, trust.value, record);
        if !ok {
          return Some(InvalidSignature);
        }
      }
      cache := cache[record.manifestId := record];
      file.content := Some(Text() + (codec.encode(record) + "\n"));
      return None;
    }

    function Text(): string
      reads this, file
    {
      if file.content.Some? then file.content.value else ""
    }

    method IsRevoked(manifestId: string) returns (revoked: bool)
      ensures revoked <==> manifestId in cache
    {
      revoked := manifestId in cache;
    }

    method GetRecord(manifestId: string) returns (r: Option<Record>)
      ensures r == if manifestId in cache then Some(cache[manifestId]) else None
    {
      r := if manifestId in cache then Some(cache[manifestId]) else None;
    }
  }

  lemma ScanNext(c: Codec, trust: Trust, lines: seq<string>, i: nat)
    requires i < |lines| && Scan(c, trust, lines[..i]).Ok?
    ensures Scan(c, trust, lines[..i + 1]) == Step(c, trust, Scan(c, trust, lines[..i]).value, lines[i])
  {
    assert lines[..i + 1][..i] == lines[..i];
  }

  /** The first error is the result. */
  lemma {:induction false} ScanFails(c: Codec, trust: Trust, lines: seq<string>, i: nat)
    requires i <= |lines| && Scan(c, trust, lines[..i]).Err?
    ensures Scan(c, trust, lines) == Scan(c, trust, lines[..i])
  {
    if i == |lines| {
      assert lines[..i] == lines;
    } else {
      var k := |lines| - 1;
      assert lines[..k][..i] == lines[..i];
      ScanFails(c, trust, lines[..k], i);
    }
  }

  // ----- runs

  /** What a list and its file hold. */
  datatype State = State(content: string, cache: map<string, Record>)

  /** Records round trip through the file: an encoded record is one line with ink at both
      ends that reads back, and no text with ink followed by a record is a record. */
  ghost predicate RoundTrips(c: Codec) {
    && (forall r :: Tight(c.encode(r)) && OneLine(c.encode(r)) && c.decode(c.encode(r)) == Some(r))
    && (forall s, r :: !Blank(s) ==> c.decode(Strip(s + c.encode(r))).None?)
  }

  /** A line that is not blank holds a record, and the record verifies under the key. */
  predicate Attested(c: Codec, key: string, line: string) {
    Strip(line) != "" ==> c.decode(Strip(line)).Some? && Verifies(c, key, c.decode(Strip(line)).value)
  }

  lemma AllSoundExactly(c: Codec, trust: Trust, lines: seq<string>)
    ensures AllSound(c, trust, lines) <==>
            (trust.Some? ==> forall i :: 0 <= i < |lines| ==> Attested(c, trust.value, lines[i]))
  {
    forall i | 0 <= i < |lines|
      ensures Sound(c, trust, lines[i]) <==> (trust.Some? ==> Attested(c, trust.value, lines[i]))
    {
    }
  }

  /** A file loads exactly when it has at most 50 MiB and meets no line with ink after a
      million records, and, under a trusted key, every line is attested. */
  lemma LoadsExactly(c: Codec, trust: Trust, content: string, lines: seq<string>)
    requires lines == Lines(content)
    ensures Loaded(c, trust, content).Ok? <==>
            && c.size(content) <= 52_428_800
            && (forall i :: 0 <= i < |lines| && Strip(lines[i]) != "" ==> |Entries(c, lines[..i])| < 1_000_000)
            && (trust.Some? ==> forall i :: 0 <= i < |lines| ==> Attested(c, trust.value, lines[i]))
  {
    ScanExact(c, trust, lines);
    AllSoundExactly(c, trust, lines);
  }

  /** Too large a file is an error of its own; otherwise the first line that fails decides,
      and the number of records before it counts first. */
  lemma LoadFault(c: Codec, trust: Trust, content: string, lines: seq<string>, i: nat)
    requires lines == Lines(content) && i < |lines| && Strip(lines[i]) != ""
    requires FewEnough(c, lines[..i]) && AllSound(c, trust, lines[..i])
    ensures c.size(content) > 52_428_800 || |Entries(c, lines[..i])| >= 1_000_000 ==>
              Loaded(c, trust, content) == Err(TooLarge)
    ensures c.size(content) <= 52_428_800 && |Entries(c, lines[..i])| < 1_000_000 ==>
              trust.Some? && !Attested(c, trust.value, lines[i]) ==> Loaded(c, trust, content) == Err(IntegrityError)
  {
    ScanExact(c, trust, lines[..i]);
    ScanNext(c, trust, lines, i);
    if Scan(c, trust, lines[..i + 1]).Err? {
      ScanFails(c, trust, lines, i + 1);
    }
  }

  /** The cache is the last-record-wins map of the file and every line may stand there. */
  ghost predicate InSync(c: Codec, trust: Trust, s: State) {
    && s.cache == LastWins(Entries(c, Lines(s.content)))
    && AllSound(c, trust, Lines(s.content))
  }

  /** `FileCrl.Revoke`, on values. */
  function AfterRevoke(c: Codec, trust: Trust, s: State, r: Record): State {
    if Trusted(c, trust, r) then State(s.content + (c.encode(r) + "\n"), s.cache[r.manifestId := r]) else s
  }

  function AfterAll(c: Codec, trust: Trust, s: State, rs: seq<Record>): State {
    if rs == [] then s else AfterRevoke(c, trust, AfterAll(c, trust, s, rs[..|rs| - 1]), rs[|rs| - 1])
  }

  /** Loading brings cache and file together, and only then. */
  lemma LoadSyncs(c: Codec, trust: Trust, content: string)
    ensures Loaded(c, trust, content).Ok? <==>
            c.size(content) <= MAX_BYTES && FewEnough(c, Lines(content)) && AllSound(c, trust, Lines(content))
    ensures Loaded(c, trust, content).Ok? ==> InSync(c, trust, State(content, Loaded(c, trust, content).value))
  {
    ScanExact(c, trust, Lines(content));
  }

  lemma EmptyInSync(c: Codec, trust: Trust)
    ensures InSync(c, trust, State("", map[]))
  {
  }

  /** While the file is within the limits, reloading a list in sync gives the same cache. */
  lemma ReloadReproduces(c: Codec, trust: Trust, s: State)
    requires InSync(c, trust, s) && c.size(s.content) <= MAX_BYTES && FewEnough(c, Lines(s.content))
    ensures Loaded(c, trust, s.content) == Ok(s.cache)
  {
    LoadSyncs(c, trust, s.content);
  }

  lemma EntryOfEncoded(c: Codec, trust: Trust, blank: string, r: Record)
    requires RoundTrips(c) && Blank(blank)
    ensures Entry(c, blank + c.encode(r)) == [r]
    ensures Sound(c, trust, blank + c.encode(r)) <==> Trusted(c, trust, r)
  {
    StripLeading(blank, c.encode(r));
  }

  lemma LinesAfterRevoke(c: Codec, content: string, r: Record, init: seq<string>)
    requires RoundTrips(c) && init == Lines(content)[..|Lines(content)| - 1]
    ensures Lines(content + (c.encode(r) + "\n")) == init + [LastLine(content) + c.encode(r)] + [""]
    ensures Lines(content) == init + [LastLine(content)]
  {
    LinesAppendLine(content, c.encode(r));
  }

  lemma EntriesLast(c: Codec, init: seq<string>, line: string)
    ensures Entries(c, init + [line]) == Entries(c, init) + Entry(c, line)
  {
  }

  /** A record appended to a blank last line adds itself and nothing else. */
  lemma AppendedEntries(c: Codec, trust: Trust, init: seq<string>, last: string, line: string, r: Record)
    requires RoundTrips(c) && Blank(last) && line == last + c.encode(r) && Trusted(c, trust, r)
    ensures Entries(c, init + [line] + [""]) == Entries(c, init + [last]) + [r]
    ensures AllSound(c, trust, init + [line] + [""]) <==> AllSound(c, trust, init)
  {
    EntryOfEncoded(c, trust, last, r);
    StripBlank(last);
    EntriesLast(c, init, last);
    EntriesLast(c, init, line);
    EntriesLast(c, init + [line], "");
    AllSoundLast(c, trust, init + [line], init, line);
    AllSoundLast(c, trust, init + [line] + [""], init + [line], "");
  }

  /** A list in sync whose file ends with a line end stays so. */
  lemma RevokeKeepsSync(c: Codec, trust: Trust, s: State, r: Record)
    requires RoundTrips(c) && InSync(c, trust, s) && Blank(LastLine(s.content))
    ensures var t := AfterRevoke(c, trust, s, r);
            InSync(c, trust, t) && Blank(LastLine(t.content))
  {
    if Trusted(c, trust, r) {
      var init, last := Lines(s.content)[..|Lines(s.content)| - 1], LastLine(s.content);
      LinesAfterRevoke(c, s.content, r, init);
      AppendedEntries(c, trust, init, last, last + c.encode(r), r);
      AllSoundLast(c, trust, init + [last], init, last);
      LastWinsLast(Entries(c, init + [last]), r);
    }
  }

  lemma LastWinsLast(rs: seq<Record>, r: Record)
    ensures LastWins(rs + [r]) == LastWins(rs)[r.manifestId := r]
  {
  }

  /** In every state reached from a list in sync, cache and file agree and every record of
      an authenticated file verifies. */
  lemma {:induction false} RunKeepsSync(c: Codec, trust: Trust, s: State, rs: seq<Record>, t: State)
    requires RoundTrips(c) && InSync(c, trust, s) && Blank(LastLine(s.content)) && t == AfterAll(c, trust, s, rs)
    ensures InSync(c, trust, t) && Blank(LastLine(t.content))
  {
    if rs != [] {
      var k := |rs| - 1;
      var before := AfterAll(c, trust, s, rs[..k]);
      RunKeepsSync(c, trust, s, rs[..k], before);
      RevokeKeepsSync(c, trust, before, rs[k]);
    }
  }

  /** What was revoked, before a run or by it, stays revoked. */
  lemma {:induction false} RevokedStays(c: Codec, trust: Trust, s: State, rs: seq<Record>)
    ensures s.cache.Keys <= AfterAll(c, trust, s, rs).cache.Keys
    ensures forall i :: 0 <= i < |rs| && Trusted(c, trust, rs[i]) ==>
              rs[i].manifestId in AfterAll(c, trust, s, rs).cache
  {
    if rs != [] {
      var k := |rs| - 1;
      RevokedStays(c, trust, s, rs[..k]);
      assert forall i :: 0 <= i < k ==> rs[i] == rs[..k][i];
    }
  }

  lemma GluedLine(c: Codec, trust: Trust, s: string, r: Record)
    requires RoundTrips(c) && trust.Some? && !Blank(s) && Sound(c, trust, s)
    ensures !Sound(c, trust, s + c.encode(r))
  {
    StripBlank(s);
    StripBlank(s + c.encode(r));
    var i :| 0 <= i < |s| && s[i] !in SPACES;
    assert (s + c.encode(r))[i] == s[i];
  }

  /** A file whose last line has no line end does not survive a revocation: the record is
      glued to that line.  An authenticated list in sync stays in sync exactly when the
      text after the last line end is blank; otherwise its file no longer loads. */
  lemma RevokeSyncsExactly(c: Codec, trust: Trust, s: State, r: Record)
    requires RoundTrips(c) && trust.Some? && InSync(c, trust, s) && Trusted(c, trust, r)
    ensures InSync(c, trust, AfterRevoke(c, trust, s, r)) <==> Blank(LastLine(s.content))
    ensures !Blank(LastLine(s.content)) ==> Loaded(c, trust, AfterRevoke(c, trust, s, r).content).Err?
  {
    if Blank(LastLine(s.content)) {
      RevokeKeepsSync(c, trust, s, r);
    } else {
      var t := AfterRevoke(c, trust, s, r);
      var init, last := Lines(s.content)[..|Lines(s.content)| - 1], LastLine(s.content);
      LinesAfterRevoke(c, s.content, r, init);
      AllSoundLast(c, trust, init + [last], init, last);
      GluedLine(c, trust, last, r);
      AllSoundLast(c, trust, init + [last + c.encode(r)], init, last + c.encode(r));
      AllSoundLast(c, trust, init + [last + c.encode(r)] + [""], init + [last + c.encode(r)], "");
      LoadSyncs(c, trust, t.content);
    }
  }

  /** The lines before the last line end. */
  function Terminated(content: string): seq<string> {
    Lines(content)[..|Lines(content)| - 1]
  }

  /** What the terminated lines alone say. */
  function TerminatedMap(c: Codec, content: string): map<string, Record> {
    LastWins(Entries(c, Terminated(content)))
  }

  /** In development mode a glued line is skipped: the file says what its terminated lines
      say, with neither the record that stood last nor the new one. */
  lemma GluedEntries(c: Codec, s: State, r: Record, init: seq<string>, last: string)
    requires RoundTrips(c) && init == Terminated(s.content) && last == LastLine(s.content) && !Blank(last)
    ensures Entries(c, Lines(AfterRevoke(c, None, s, r).content)) == Entries(c, init)
  {
    var glued := last + c.encode(r);
    LinesAfterRevoke(c, s.content, r, init);
    assert Entry(c, glued) == [];
    EntriesLast(c, init, glued);
    EntriesLast(c, init + [glued], "");
  }

  lemma NothingUnsound(c: Codec, lines: seq<string>)
    ensures AllSound(c, None, lines)
  {
  }

  /** The development mode has the same condition up to luck: a list in sync stays in sync
      exactly when the text after the last line end is blank, or the terminated lines already
      hold the new record, and that of the last line, as the latest of their manifests. */
  lemma DevelopmentSyncsExactly(c: Codec, s: State, r: Record)
    requires RoundTrips(c) && InSync(c, None, s)
    ensures InSync(c, None, AfterRevoke(c, None, s, r)) <==>
            Blank(LastLine(s.content)) || TerminatedMap(c, s.content) == s.cache[r.manifestId := r]
  {
    if Blank(LastLine(s.content)) {
      RevokeKeepsSync(c, None, s, r);
    } else {
      GluedEntries(c, s, r, Terminated(s.content), LastLine(s.content));
      NothingUnsound(c, Lines(AfterRevoke(c, None, s, r).content));
    }
  }

  /** The cache of a list in sync, by its last line: a record there is the latest. */
  lemma CacheByLastLine(c: Codec, trust: Trust, s: State, w: Record)
    requires InSync(c, trust, s) && Entry(c, LastLine(s.content)) == [w]
    ensures s.cache == TerminatedMap(c, s.content)[w.manifestId := w]
  {
  }

  /** With a record w on an unterminated last line, the list stays in sync exactly when
      adding w and then r to what the terminated lines say changes nothing. */
  lemma GluedRecordSyncsExactly(c: Codec, s: State, r: Record, w: Record)
    requires RoundTrips(c) && InSync(c, None, s) && !Blank(LastLine(s.content)) && Entry(c, LastLine(s.content)) == [w]
    ensures var before := TerminatedMap(c, s.content);
            InSync(c, None, AfterRevoke(c, None, s, r)) <==> before == before[w.manifestId := w][r.manifestId := r]
  {
    DevelopmentSyncsExactly(c, s, r);
    CacheByLastLine(c, None, s, w);
  }

  /** While the file is within the limits it then loads, without those two records. */
  lemma GluedRecordIsLost(c: Codec, s: State, r: Record)
    requires RoundTrips(c) && InSync(c, None, s) && !Blank(LastLine(s.content))
    ensures var content := AfterRevoke(c, None, s, r).content;
            c.size(content) <= MAX_BYTES && FewEnough(c, Lines(content)) ==>
              Loaded(c, None, content) == Ok(TerminatedMap(c, s.content))
  {
    var content := AfterRevoke(c, None, s, r).content;
    GluedEntries(c, s, r, Terminated(s.content), LastLine(s.content));
    NothingUnsound(c, Lines(content));
    ScanExact(c, None, Lines(content));
  }

  /** A file of one record without a line end: after one revocation it loads as empty. */
  lemma OneGluedRecord(c: Codec, s: State, r: Record, was: Record)
    requires RoundTrips(c) && InSync(c, None, s) && s.content == c.encode(was)
    ensures s.cache == map[was.manifestId := was]
    ensures TerminatedMap(c, s.content) == map[] && !InSync(c, None, AfterRevoke(c, None, s, r))
  {
    LinesOfText(c.encode(was));
    EntryOfEncoded(c, None, "", was);
    assert "" + c.encode(was) == c.encode(was) && c.encode(was)[0] !in SPACES;
    CacheByLastLine(c, None, s, was);
    DevelopmentSyncsExactly(c, s, r);
    assert r.manifestId in s.cache[r.manifestId := r];
  }
}
