/** PAT and PMT sections with their CRC. */
module TsTables {
  import opened Bytes
  import opened Crc32

  const PMT_PID := 0x1000
  const VIDEO_PID := 0x100
  const AUDIO_PID := 0x101

  // ---------------------------------------------------------------- bytes as words

  function Words(data: seq<byte>): (r: seq<bv8>)
    ensures |r| == |data| && forall k :: 0 <= k < |data| ==> r[k] == data[k] as bv8
  {
    seq(|data|, k requires 0 <= k < |data| => data[k] as bv8)
  }

  function Octets(words: seq<bv8>): (r: seq<byte>)
    ensures |r| == |words| && forall k :: 0 <= k < |words| ==> r[k] == words[k] as int
  {
    seq(|words|, k requires 0 <= k < |words| => words[k] as int)
  }

  lemma WordsOfOctets(words: seq<bv8>)
    ensures Words(Octets(words)) == words
  {
    forall k | 0 <= k < |words| ensures Words(Octets(words))[k] == words[k] {
    }
  }

  lemma WordsAppend(a: seq<byte>, b: seq<byte>)
    ensures Words(a + b) == Words(a) + Words(b)
  {
    assert |Words(a + b)| == |Words(a) + Words(b)|;
    forall k | 0 <= k < |a + b| ensures Words(a + b)[k] == (Words(a) + Words(b))[k] {
      assert (a + b)[k] == if k < |a| then a[k] else b[k - |a|];
    }
  }

  // ---------------------------------------------------------------- sections

  function PidBytes(pid: nat): seq<byte>
    requires pid < 0x2000
  {
    [pid / 0x100, pid % 0x100]
  }

  /** From the table id to the end of the program loop, without the CRC. */
  function PatSection(): seq<byte> {
    [0x00, 0xB0, 13, 0, 1, 0xC1, 0, 0, 0, 1] + PidBytes(PMT_PID)
  }

  function StreamEntry(streamType: byte, pid: nat): seq<byte>
    requires pid < 0x2000
  {
    [streamType] + PidBytes(pid) + [0xF0, 0x00]
  }

  function PmtHead(hasVideo: bool, hasAudio: bool): seq<byte> {
    [0x02, 0xB0, 13 + (if hasVideo then 5 else 0) + (if hasAudio then 5 else 0), 0, 1, 0xC1, 0, 0]
    + (if hasVideo then PidBytes(VIDEO_PID) else if hasAudio then PidBytes(AUDIO_PID) else [0x1F, 0xFF])
    + [0xF0, 0x00]
  }

  function PmtStreams(hasVideo: bool, hasAudio: bool): seq<byte> {
    (if hasVideo then StreamEntry(0x1B, VIDEO_PID) else [])
    + (if hasAudio then StreamEntry(0x0F, AUDIO_PID) else [])
  }

  function PmtSection(hasVideo: bool, hasAudio: bool): seq<byte> {
    PmtHead(hasVideo, hasAudio) + PmtStreams(hasVideo, hasAudio)
  }

  /** The CRC bytes that close a section. */
  function CrcOf(section: seq<byte>): (r: seq<byte>)
    ensures |r| == 4
  {
    Octets(CrcBytes(TableCrc(CRC_START, Words(section))))
  }

  /** A section behind its pointer field and in front of its CRC. */
  function TablePayload(section: seq<byte>): (r: seq<byte>)
    ensures |r| == |section| + 5
  {
    [0] + section + CrcOf(section)
  }

  /** A receiver's section: after the pointer field, as long as its length field says, with a CRC that checks. */
  ghost predicate GoodSection(payload: seq<byte>) {
    |payload| >= 4 && payload[0] == 0
    && |payload| == 4 + (payload[2] as int) % 0x10 * 0x100 + payload[3]
    && SerialCrc(0xFFFF_FFFF, Words(payload[1..])) == 0
  }

  lemma CrcOfWords(section: seq<byte>)
    ensures Words(CrcOf(section)) == CrcBytes(TableCrc(CRC_START, Words(section)))
  {
    hide TableCrc, Words, Octets, CrcBytes;
    WordsOfOctets(CrcBytes(TableCrc(CRC_START, Words(section))));
  }

  lemma PayloadTail(section: seq<byte>)
    ensures TablePayload(section)[1..] == section + CrcOf(section)
  {
    hide CrcOf;
  }

  /** Whatever the section, what follows the pointer field leaves residue 0 in the bit-serial register. */
  lemma SectionResidue(section: seq<byte>)
    ensures SerialCrc(0xFFFF_FFFF, Words(TablePayload(section)[1..])) == 0
  {
    assert CRC_START == 0xFFFF_FFFF;
    hide *;
    var words := Words(section);
    var crc := CrcBytes(TableCrc(CRC_START, words));
    ResidueZero(words);
    TableCrcIsSerial(CRC_START, words + crc);
    CrcOfWords(section);
    WordsAppend(section, CrcOf(section));
    PayloadTail(section);
  }

  /** Every PAT and PMT the muxer writes is a section of the declared length with a CRC that checks. */
  lemma TablesAreGood(hasVideo: bool, hasAudio: bool)
    ensures GoodSection(TablePayload(PatSection()))
    ensures GoodSection(TablePayload(PmtSection(hasVideo, hasAudio)))
  {
    SectionResidue(PatSection());
    SectionResidue(PmtSection(hasVideo, hasAudio));
    hide SerialCrc, TableCrc, Words, Octets, CrcBytes;
    var pat, pmt := PatSection(), PmtSection(hasVideo, hasAudio);
    assert TablePayload(pat)[2] == pat[1] && TablePayload(pat)[3] == pat[2];
    assert TablePayload(pmt)[2] == pmt[1] && TablePayload(pmt)[3] == pmt[2];
  }

  // ---------------------------------------------------------------- reading them

  /** A 13-bit PID behind three reserved bits. */
  function PidAt(b: seq<byte>, i: nat): nat
    requires i + 1 < |b|
  {
    (b[i] as int) % 0x20 * 0x100 + b[i + 1]
  }

  /** A 12-bit length behind four reserved bits. */
  function LengthAt(b: seq<byte>, i: nat): nat
    requires i + 1 < |b|
  {
    (b[i] as int) % 0x10 * 0x100 + b[i + 1]
  }

  /** Program numbers and PMT PIDs of a program association loop. */
  function ReadPrograms(b: seq<byte>): seq<(nat, nat)> {
    if |b| < 4 then [] else [(FromBe16(b[0], b[1]) as nat, PidAt(b, 2))] + ReadPrograms(b[4..])
  }

  /** Stream types and PIDs of a program map loop, descriptors skipped. */
  function ReadStreams(b: seq<byte>): seq<(byte, nat)>
    decreases |b|
  {
    if |b| < 5 || 5 + LengthAt(b, 3) > |b| then []
    else [(b[0], PidAt(b, 1))] + ReadStreams(b[5 + LengthAt(b, 3)..])
  }

  /** A section of the given table id behind a zero pointer field: its bytes up to the CRC. */
  function ReadSection(payload: seq<byte>, tableId: byte): Option<seq<byte>> {
    if |payload| < 4 || payload[0] != 0 || payload[1] != tableId then None
    else
      var end := 4 + LengthAt(payload, 2);
      if end > |payload| || end < 13 then None else Some(payload[1..end - 4])
  }

  /** The programs of a PAT, ISO/IEC 13818-1 section 2.4.4.3. */
  function ReadPat(payload: seq<byte>): Option<seq<(nat, nat)>> {
    match ReadSection(payload, 0x00)
    case None => None
    case Some(section) => Some(ReadPrograms(section[8..]))
  }

  datatype ProgramMap = ProgramMap(pcrPid: nat, streams: seq<(byte, nat)>)

  /** The clock PID and the streams of a PMT, section 2.4.4.8. */
  function ReadPmt(payload: seq<byte>): Option<ProgramMap> {
    match ReadSection(payload, 0x02)
    case None => None
    case Some(section) =>
      if |section| < 12 || 12 + LengthAt(section, 10) > |section| then None
      else Some(ProgramMap(PidAt(section, 8), ReadStreams(section[12 + LengthAt(section, 10)..])))
  }

  /** The streams a program map announces. */
  function Announced(hasVideo: bool, hasAudio: bool): seq<(byte, nat)> {
    (if hasVideo then [(0x1B, 0x100)] else []) + (if hasAudio then [(0x0F, 0x101)] else [])
  }

  lemma SectionRead(section: seq<byte>, tableId: byte)
    requires |section| >= 8 && section[0] == tableId && LengthAt(section, 1) == |section| + 1
    ensures ReadSection(TablePayload(section), tableId) == Some(section)
  {
    hide CrcOf;
    var payload := TablePayload(section);
    assert payload[1] == section[0] && payload[2] == section[1] && payload[3] == section[2];
    assert payload[1..|section| + 1] == section;
  }

  lemma StreamsRead(hasVideo: bool, hasAudio: bool)
    ensures ReadStreams(PmtStreams(hasVideo, hasAudio)) == Announced(hasVideo, hasAudio)
  {
    hide ReadStreams, StreamEntry;
    var video, audio := StreamEntry(0x1B, VIDEO_PID), StreamEntry(0x0F, AUDIO_PID);
    NoStreams();
    EntryRead(0x1B, VIDEO_PID, []);
    EntryRead(0x0F, AUDIO_PID, []);
    EntryRead(0x1B, VIDEO_PID, audio);
    assert video + [] == video && audio + [] == audio && [] + audio == audio;
  }

  lemma NoStreams()
    ensures ReadStreams([]) == []
  {
  }

  lemma EntryRead(streamType: byte, pid: nat, rest: seq<byte>)
    requires pid < 0x2000
    ensures ReadStreams(StreamEntry(streamType, pid) + rest) == [(streamType, pid)] + ReadStreams(rest)
  {
    var b := StreamEntry(streamType, pid) + rest;
    assert b[0] == streamType && b[1] == pid / 0x100 && b[2] == pid % 0x100 && b[3] == 0xF0 && b[4] == 0;
    assert b[5..] == rest;
  }

  /** A receiver reads from the tables what the muxer uses: program 1 on the PMT PID, the streams announced with their
      types and PIDs, and the clock on the first of them. */
  lemma TablesRead(hasVideo: bool, hasAudio: bool)
    ensures ReadPat(TablePayload(PatSection())) == Some([(1, 0x1000)])
    ensures ReadPmt(TablePayload(PmtSection(hasVideo, hasAudio)))
         == Some(ProgramMap(if hasVideo then 0x100 else if hasAudio then 0x101 else 0x1FFF,
                            Announced(hasVideo, hasAudio)))
  {
    PatRead();
    PmtRead(hasVideo, hasAudio);
  }

  /** The tables byte by byte: transport stream 1, version 0, one section, and no reserved bits in front of a PID. */
  lemma TableBytes()
    ensures PatSection() == [0x00, 0xB0, 13, 0, 1, 0xC1, 0, 0, 0, 1, 0x10, 0x00]
    ensures PmtSection(true, true) ==
      [0x02, 0xB0, 23, 0, 1, 0xC1, 0, 0, 0x01, 0x00, 0xF0, 0, 0x1B, 0x01, 0x00, 0xF0, 0, 0x0F, 0x01, 0x01, 0xF0, 0]
  {
    assert PmtHead(true, true) == [0x02, 0xB0, 23, 0, 1, 0xC1, 0, 0, 0x01, 0x00, 0xF0, 0];
    assert PmtStreams(true, true) == [0x1B, 0x01, 0x00, 0xF0, 0, 0x0F, 0x01, 0x01, 0xF0, 0];
    hide PmtHead, PmtStreams;
  }

  lemma PatRead()
    ensures ReadPat(TablePayload(PatSection())) == Some([(1, 0x1000)])
  {
    hide TablePayload;
    var pat := PatSection();
    SectionRead(pat, 0x00);
    var b := pat[8..];
    assert b == [0, 1, 0x10, 0] && b[4..] == [];
    assert ReadPrograms([]) == [];
    assert ReadPrograms(b) == [(1, PMT_PID)] + ReadPrograms(b[4..]) == [(1, PMT_PID)];
    hide ReadSection, ReadPrograms, PatSection;
  }

  lemma PmtRead(hasVideo: bool, hasAudio: bool)
    ensures ReadPmt(TablePayload(PmtSection(hasVideo, hasAudio)))
         == Some(ProgramMap(if hasVideo then 0x100 else if hasAudio then 0x101 else 0x1FFF,
                            Announced(hasVideo, hasAudio)))
  {
    hide TablePayload, ReadStreams;
    var pmt := PmtSection(hasVideo, hasAudio);
    SectionRead(pmt, 0x02);
    StreamsRead(hasVideo, hasAudio);
    assert pmt[12..] == PmtStreams(hasVideo, hasAudio);
    hide PmtStreams, ReadSection;
    var head := PmtHead(hasVideo, hasAudio);
    assert |head| == 12 && pmt[8] == head[8] && pmt[9] == head[9] && pmt[10] == 0xF0 && pmt[11] == 0;
  }

  // ---------------------------------------------------------------- building them

  method CloseSection(table: seq<bv32>, start: seq<byte>) returns (payload: seq<byte>)
    requires IsTable(table) && |start| > 0 && start[0] == 0
    ensures payload == TablePayload(start[1..])
  {
    var crc := Crc(table, Words(start[1..]));
    payload := start + Octets(CrcBytes(crc));
    hide *;
    assert start == [0] + start[1..];
  }

  method PatPayload(table: seq<bv32>) returns (payload: seq<byte>)
    requires IsTable(table)
    ensures payload == TablePayload(PatSection())
  {
    var sectionLength := 13;
    payload := [0x00];
    payload := payload + [0x00];
    payload := payload + [0xB0 + sectionLength / 0x100 % 0x10];
    payload := payload + [sectionLength % 0x100];
    payload := payload + [0x00, 0x01];
    payload := payload + [0xC1];
    payload := payload + [0x00];
    payload := payload + [0x00];
    payload := payload + [0x00, 0x01];
    payload := payload + [PMT_PID / 0x100 % 0x20];
    payload := payload + [PMT_PID % 0x100];
    hide *;
    assert payload[1..] == PatSection();
    payload := CloseSection(table, payload);
  }

  /** One elementary stream of the program. */
  method AddStream(payload: seq<byte>, streamType: byte, pid: nat) returns (r: seq<byte>)
    requires pid < 0x2000
    ensures r == payload + StreamEntry(streamType, pid)
  {
    r := payload + [streamType];
    r := r + PidBytes(pid);
    r := r + [0xF0, 0x00];
  }

  /** The pointer field and the section up to its streams. */
  method PmtStart(hasVideo: bool, hasAudio: bool) returns (payload: seq<byte>)
    ensures payload == [0] + PmtHead(hasVideo, hasAudio)
  {
    var streamInfoLen := 0;
    if hasVideo {
      streamInfoLen := streamInfoLen + 5;
    }
    if hasAudio {
      streamInfoLen := streamInfoLen + 5;
    }
    var sectionLength := 5 + 4 + streamInfoLen + 4;
    payload := [0x00];
    payload := payload + [0x02];
    payload := payload + [0xB0 + sectionLength / 0x100 % 0x10];
    payload := payload + [sectionLength % 0x100];
    payload := payload + [0x00, 0x01];
    payload := payload + [0xC1];
    payload := payload + [0x00];
    payload := payload + [0x00];
    assert payload == [0, 2, 0xB0 + sectionLength / 0x100 % 0x10, sectionLength % 0x100, 0, 1, 0xC1, 0, 0];
    if hasVideo {
      payload := payload + PidBytes(VIDEO_PID);
    } else if hasAudio {
      payload := payload + PidBytes(AUDIO_PID);
    } else {
      payload := payload + [0x1F, 0xFF];
    }
    payload := payload + [0xF0, 0x00];
  }

  method PmtPayload(table: seq<bv32>, hasVideo: bool, hasAudio: bool) returns (payload: seq<byte>)
    requires IsTable(table)
    ensures payload == TablePayload(PmtSection(hasVideo, hasAudio))
  {
    hide PmtHead, StreamEntry, TablePayload, IsTable;
    payload := PmtStart(hasVideo, hasAudio);
    if hasVideo {
      payload := AddStream(payload, 0x1B, VIDEO_PID);
    }
    if hasAudio {
      payload := AddStream(payload, 0x0F, AUDIO_PID);
    }
    assert payload[1..] == PmtSection(hasVideo, hasAudio);
    payload := CloseSection(table, payload);
  }
}
