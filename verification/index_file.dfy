/**
 * The CTF packet-index file: a 16-byte header of four big-endian `uint32`
 * fields (magic, major, minor, element length) followed by fixed-length
 * packet-index records. Covers header creation, the validation performed
 * on open, the path an index file is opened at, whole-record reads and
 * writes, and the reference count of an open index file.
 *
 * Results of `open`, `mkdir`, `unlink`, `lttng_read` and `lttng_write` are
 * inputs. `ctf_packet_index_len(major, minor)` is not part of this model:
 * its value is passed in as `elementLen`.
 */
module IndexFile {
  import opened FixedWidth
  import BigEndian
  import Decimal

  /** `CTF_INDEX_MAGIC`, `CTF_INDEX_MAJOR` and `CTF_INDEX_MINOR` (ctf-index.h). */
  const CTF_INDEX_MAGIC: uint32 := 0xC1F1DCC1
  const CTF_INDEX_MAJOR: uint32 := 1
  const CTF_INDEX_MINOR: uint32 := 1

  /** `sizeof(struct ctf_packet_index)`: nine packed 64-bit fields. */
  const PACKET_INDEX_SIZE: nat := 72

  /** `sizeof(struct ctf_packet_index_file_hdr)`: four 32-bit fields. */
  const HEADER_SIZE: nat := 16

  /** `DEFAULT_INDEX_DIR` and `DEFAULT_INDEX_FILE_SUFFIX` (defaults.h). */
  const INDEX_DIR: string := "index"
  const INDEX_FILE_SUFFIX: string := ".idx"

  const ENOENT: nat := 2
  const EEXIST: nat := 17

  datatype Header = Header(magic: uint32, major: uint32, minor: uint32, elementLen: uint32)

  /* ---------------------------------------------------------------- codec */

  /** The on-disk bytes of a header: each field through `htobe32`, in declaration order. */
  function EncodeHeader(h: Header): (b: seq<uint8>)
    ensures |b| == HEADER_SIZE
  {
    BigEndian.Encode32(h.magic) + BigEndian.Encode32(h.major)
      + BigEndian.Encode32(h.minor) + BigEndian.Encode32(h.elementLen)
  }

  /** The header fields of 16 bytes read from disk, each through `be32toh`. */
  function DecodeHeader(b: seq<uint8>): Header
    requires |b| == HEADER_SIZE
  {
    Header(BigEndian.Decode32(b[0..4]), BigEndian.Decode32(b[4..8]),
           BigEndian.Decode32(b[8..12]), BigEndian.Decode32(b[12..16]))
  }

  /** Decoding an encoded header gives the header back. */
  lemma DecodeEncodeHeader(h: Header)
    ensures DecodeHeader(EncodeHeader(h)) == h
  {
    var b := EncodeHeader(h);
    assert b[0..4] == BigEndian.Encode32(h.magic);
    assert b[4..8] == BigEndian.Encode32(h.major);
    assert b[8..12] == BigEndian.Encode32(h.minor);
    assert b[12..16] == BigEndian.Encode32(h.elementLen);
  }

  /** Every 16-byte string is the encoding of the header it decodes to. */
  lemma EncodeDecodeHeader(b: seq<uint8>)
    requires |b| == HEADER_SIZE
    ensures EncodeHeader(DecodeHeader(b)) == b
  {
    BigEndian.Encode32Decode32(b[0..4]);
    BigEndian.Encode32Decode32(b[4..8]);
    BigEndian.Encode32Decode32(b[8..12]);
    BigEndian.Encode32Decode32(b[12..16]);
    assert b == b[0..4] + b[4..8] + b[8..12] + b[12..16];
  }

  /** The header `lttng_index_file_create` writes for a file of version
      `major.minor` whose records are `elementLen` bytes long. */
  function CreatedHeader(major: uint32, minor: uint32, elementLen: uint32): (b: seq<uint8>)
    ensures |b| == HEADER_SIZE
    ensures DecodeHeader(b) == Header(CTF_INDEX_MAGIC, major, minor, elementLen)
  {
    DecodeEncodeHeader(Header(CTF_INDEX_MAGIC, major, minor, elementLen));
    EncodeHeader(Header(CTF_INDEX_MAGIC, major, minor, elementLen))
  }

  /* ------------------------------------------------------------ validation */

  datatype OpenError =
    | OpenFailed          // open(2) failed
    | HeaderReadFailed    // lttng_read returned a negative value
    | ShortHeader         // fewer than HEADER_SIZE bytes were read
    | BadMagic
    | BadVersion
    | ElementTooLong

  /** The checks `lttng_index_file_open` applies to a decoded header, in the
      order the code applies them: magic, then major version, then element length. */
  function CheckHeader(h: Header): (e: Option<OpenError>)
    ensures e.None? <==> (h.magic == CTF_INDEX_MAGIC && h.major == CTF_INDEX_MAJOR
                          && h.elementLen <= PACKET_INDEX_SIZE)
    ensures h.magic != CTF_INDEX_MAGIC ==> e == Some(BadMagic)
    ensures h.magic == CTF_INDEX_MAGIC && h.major != CTF_INDEX_MAJOR ==> e == Some(BadVersion)
    ensures (h.magic == CTF_INDEX_MAGIC && h.major == CTF_INDEX_MAJOR
             && h.elementLen > PACKET_INDEX_SIZE) ==> e == Some(ElementTooLong)
  {
    if h.magic != CTF_INDEX_MAGIC then Some(BadMagic)
    else if h.major != CTF_INDEX_MAJOR then Some(BadVersion)
    else if h.elementLen > PACKET_INDEX_SIZE then Some(ElementTooLong)
    else None
  }

  datatype Option<T> = None | Some(value: T)

  /* ------------------------------------------------------------------ path */

  /** The path `lttng_index_file_open` opens: with tracefile rotation
      (`tracefile_count > 0`) the file name carries the current tracefile number. */
  function IndexPath(pathName: string, channelName: string, tracefileCount: uint64,
                     tracefileCountCurrent: uint64): string
  {
    pathName + "/" + INDEX_DIR + "/" + channelName
      + (if tracefileCount > 0 then "_" + Decimal.Format(tracefileCountCurrent) else "")
      + INDEX_FILE_SUFFIX
  }

  /** Without rotation the path ignores the current tracefile number; with
      rotation it is `<path>/index/<name>_<current>.idx`. */
  lemma IndexPathShape(pathName: string, channelName: string, count: uint64, current: uint64, other: uint64)
    ensures count == 0 ==> IndexPath(pathName, channelName, count, current)
                           == IndexPath(pathName, channelName, count, other)
                           == pathName + "/index/" + channelName + ".idx"
    ensures count > 0 ==> IndexPath(pathName, channelName, count, current)
                          == pathName + "/index/" + channelName + "_" + Decimal.Format(current) + ".idx"
  {
  }

  /** With rotation, distinct tracefile numbers name distinct index files. */
  lemma IndexPathDistinguishesTracefiles(pathName: string, channelName: string, count: uint64,
                                         c1: uint64, c2: uint64)
    requires count > 0
    requires IndexPath(pathName, channelName, count, c1) == IndexPath(pathName, channelName, count, c2)
    ensures c1 == c2
  {
    var prefix := pathName + "/" + INDEX_DIR + "/" + channelName + "_";
    var d1 := Decimal.Format(c1);
    var d2 := Decimal.Format(c2);
    assert IndexPath(pathName, channelName, count, c1) == prefix + d1 + INDEX_FILE_SUFFIX;
    assert IndexPath(pathName, channelName, count, c2) == prefix + d2 + INDEX_FILE_SUFFIX;
    var p1 := prefix + d1 + INDEX_FILE_SUFFIX;
    var p2 := prefix + d2 + INDEX_FILE_SUFFIX;
    assert |d1| == |d2|;
    assert d1 == p1[|prefix|..|prefix| + |d1|];
    assert d2 == p2[|prefix|..|prefix| + |d2|];
    Decimal.FormatInjective(c1, c2);
  }

  /* -------------------------------------------------------- open / create */

  /** An open index file as `struct lttng_index_file` records it. */
  datatype IndexFile = IndexFile(fd: int, major: uint32, minor: uint32, elementLen: uint32)

  /** What `lttng_read` delivers: an error, or the bytes read before end of
      file (never more than requested). */
  datatype ReadAnswer = ReadError | BytesRead(bytes: seq<uint8>)

  /** The outcome of `open(2)` on a path, with what reading its header yields. */
  datatype OpenAnswer = OpenRefused | OpenedFd(fd: nat, read: ReadAnswer)

  predicate WellFormedAnswer(a: OpenAnswer) {
    a.OpenedFd? && a.read.BytesRead? ==> |a.read.bytes| <= HEADER_SIZE
  }

  datatype OpenOutcome =
    | Opened(handle: RefState)
    /** `closedFd` is the descriptor closed on the error path, if one was opened. */
    | OpenRejected(error: OpenError, closedFd: Option<int>)

  /** `lttng_index_file_open` with the short-read check the code is missing
      (see `OpenAsWritten`): the file system is consulted only at
      `IndexPath(...)`, and a handle is returned exactly when a whole header
      was read and passes `CheckHeader`; it then holds one reference and the
      header's version and element length. */
  function Open(fs: string -> OpenAnswer, pathName: string, channelName: string,
                tracefileCount: uint64, tracefileCountCurrent: uint64): (o: OpenOutcome)
    requires WellFormedAnswer(fs(IndexPath(pathName, channelName, tracefileCount, tracefileCountCurrent)))
    ensures
      var a := fs(IndexPath(pathName, channelName, tracefileCount, tracefileCountCurrent));
      && (o.Opened? <==> a.OpenedFd? && a.read.BytesRead? && |a.read.bytes| == HEADER_SIZE
                         && CheckHeader(DecodeHeader(a.read.bytes)).None?)
      && (o.Opened? ==> var h := DecodeHeader(a.read.bytes);
            o.handle == Live(IndexFile(a.fd, h.major, h.minor, h.elementLen), 1))
      && (o.OpenRejected? ==> o.closedFd == (if a.OpenedFd? then Some(a.fd as int) else None))
      // The error reported is that of the first step that failed.
      && (a.OpenRefused? ==> o.error == OpenFailed)
      && (a.OpenedFd? && a.read.ReadError? ==> o.error == HeaderReadFailed)
      && (a.OpenedFd? && a.read.BytesRead? && |a.read.bytes| < HEADER_SIZE ==> o.error == ShortHeader)
      && (a.OpenedFd? && a.read.BytesRead? && |a.read.bytes| == HEADER_SIZE && o.OpenRejected? ==>
            o.error == CheckHeader(DecodeHeader(a.read.bytes)).value)
  {
    var a := fs(IndexPath(pathName, channelName, tracefileCount, tracefileCountCurrent));
    match a
    case OpenRefused => OpenRejected(OpenFailed, None)
    case OpenedFd(fd, ReadError) => OpenRejected(HeaderReadFailed, Some(fd))
    case OpenedFd(fd, BytesRead(bytes)) =>
      if |bytes| < HEADER_SIZE then OpenRejected(ShortHeader, Some(fd))
      else AcceptHeader(fd, DecodeHeader(bytes))
  }

  /** The tail of `lttng_index_file_open` once a header is in memory. */
  function AcceptHeader(fd: nat, h: Header): (o: OpenOutcome)
    ensures o.Opened? <==> CheckHeader(h).None?
    ensures o.Opened? ==> o.handle == Live(IndexFile(fd, h.major, h.minor, h.elementLen), 1)
    ensures o.OpenRejected? ==> o == OpenRejected(CheckHeader(h).value, Some(fd))
  {
    match CheckHeader(h)
    case Some(e) => OpenRejected(e, Some(fd))
    case None => Opened(Live(IndexFile(fd, h.major, h.minor, h.elementLen), 1))
  }

  /** `lttng_index_file_open` as written: only a negative `lttng_read`
      result is rejected, so after a short read the missing header bytes are
      whatever the uninitialised stack buffer `hdr` held (`stale`). */
  function OpenAsWritten(fs: string -> OpenAnswer, pathName: string, channelName: string,
                         tracefileCount: uint64, tracefileCountCurrent: uint64,
                         stale: seq<uint8>): (o: OpenOutcome)
    requires |stale| == HEADER_SIZE
    requires WellFormedAnswer(fs(IndexPath(pathName, channelName, tracefileCount, tracefileCountCurrent)))
    ensures
      var a := fs(IndexPath(pathName, channelName, tracefileCount, tracefileCountCurrent));
      a.OpenedFd? && a.read.BytesRead? ==>
        o == AcceptHeader(a.fd, DecodeHeader(a.read.bytes + stale[|a.read.bytes|..]))
  {
    var a := fs(IndexPath(pathName, channelName, tracefileCount, tracefileCountCurrent));
    match a
    case OpenRefused => OpenRejected(OpenFailed, None)
    case OpenedFd(fd, ReadError) => OpenRejected(HeaderReadFailed, Some(fd))
    case OpenedFd(fd, BytesRead(bytes)) => AcceptHeader(fd, DecodeHeader(bytes + stale[|bytes|..]))
  }

  /** As written, an empty index file is opened successfully when the stack
      happens to hold a valid header; the intended `Open` rejects it. */
  lemma OpenAsWrittenAcceptsEmptyFile()
    ensures
      var fs := (p: string) => OpenedFd(3, BytesRead([]));
      var stale := CreatedHeader(CTF_INDEX_MAJOR, CTF_INDEX_MINOR, 72);
      && OpenAsWritten(fs, "trace", "chan", 0, 0, stale).Opened?
      && Open(fs, "trace", "chan", 0, 0) == OpenRejected(ShortHeader, Some(3))
  {
    var stale := CreatedHeader(CTF_INDEX_MAJOR, CTF_INDEX_MINOR, 72);
    assert [] + stale[0..] == stale;
  }

  /** Header round trip: a header written by `lttng_index_file_create` for the
      current major version and a record length that fits is accepted by
      `lttng_index_file_open`, which reports the same version and length. */
  lemma CreatedHeaderOpens(fs: string -> OpenAnswer, pathName: string, channelName: string,
                           count: uint64, current: uint64, fd: nat, minor: uint32, elementLen: uint32)
    requires elementLen <= PACKET_INDEX_SIZE
    requires fs(IndexPath(pathName, channelName, count, current))
             == OpenedFd(fd, BytesRead(CreatedHeader(CTF_INDEX_MAJOR, minor, elementLen)))
    ensures Open(fs, pathName, channelName, count, current)
            == Opened(Live(IndexFile(fd, CTF_INDEX_MAJOR, minor, elementLen), 1))
  {
  }

  /** Open never accepts a header of another major version, whatever its
      minor version; any minor version of the current major is accepted. */
  lemma OpenIgnoresMinor(fd: nat, major: uint32, minor: uint32, elementLen: uint32)
    requires elementLen <= PACKET_INDEX_SIZE
    ensures AcceptHeader(fd, DecodeHeader(CreatedHeader(major, minor, elementLen))).Opened?
            <==> major == CTF_INDEX_MAJOR
  {
  }

  /* ------------------------------------------------------------- transfers */

  /** What `lttng_read` / `lttng_write` return for a request of `len` bytes:
      -1 when nothing could be transferred, otherwise the count transferred. */
  predicate IsTransferResult(ret: int, len: nat) {
    -1 <= ret <= len
  }

  /** The intended completeness test of a record transfer: a non-negative
      count of at least `len` bytes. */
  predicate FullTransfer(ret: int, len: nat) {
    !(ret < 0 || ret < len)
  }

  /** The test as the C code writes it: `ret < len` compares an `ssize_t`
      with a `size_t`, so `ret` is first converted to `size_t`. */
  predicate FullTransferAsWritten(bits: LongBits, ret: int, len: nat)
    requires IsSSize(bits, ret)
  {
    !(SSizeAsSize(bits, ret) < len)
  }

  /** A failed `lttng_write` (-1) passes the as-written test on both word sizes. */
  lemma FailedWriteLooksComplete(bits: LongBits, len: nat)
    requires len < HalfLongLimit(bits)
    ensures FullTransferAsWritten(bits, -1, len)
    ensures !FullTransfer(-1, len)
  {
  }

  /** For genuine transfer results the intended test holds exactly for a full transfer. */
  lemma FullTransferExact(ret: int, len: nat)
    requires IsTransferResult(ret, len)
    ensures FullTransfer(ret, len) <==> ret == len
  {
  }

  /** `lttng_index_file_write`, with the signed comparison intended:
      0 exactly when the file descriptor is valid and a whole record of
      `elementLen` bytes was written, -1 otherwise. */
  function Write(file: IndexFile, ret: int): (r: int)
    requires IsTransferResult(ret, file.elementLen)
    ensures r == 0 || r == -1
    ensures r == 0 <==> file.fd >= 0 && ret == file.elementLen
  {
    if file.fd < 0 then -1
    else if !FullTransfer(ret, file.elementLen) then -1
    else 0
  }

  /** `lttng_index_file_write` as written: the comparison is unsigned. */
  function WriteAsWritten(bits: LongBits, file: IndexFile, ret: int): (r: int)
    requires IsSSize(bits, ret) && IsTransferResult(ret, file.elementLen)
    ensures file.fd >= 0 && ret == -1 && file.elementLen < HalfLongLimit(bits) ==> r == 0
  {
    if file.fd < 0 then -1
    else if !FullTransferAsWritten(bits, ret, file.elementLen) then -1
    else 0
  }

  /** `lttng_index_file_read`: the record is delivered exactly when the file
      descriptor is valid and `elementLen` bytes were read. */
  function Read(file: IndexFile, answer: ReadAnswer): (r: Option<seq<uint8>>)
    requires answer.BytesRead? ==> |answer.bytes| <= file.elementLen
    ensures r.Some? <==> file.fd >= 0 && answer.BytesRead? && |answer.bytes| == file.elementLen
    ensures r.Some? ==> r.value == answer.bytes && |r.value| == file.elementLen
  {
    if file.fd < 0 then None
    else match answer
      case ReadError => None
      case BytesRead(bytes) => if |bytes| < file.elementLen then None else Some(bytes)
  }

  /** The bytes `lttng_read` of `len` bytes at `offset` delivers from a file
      holding `content`: it reads until `len` bytes or the end of the file. */
  function ReadAt(content: seq<uint8>, offset: nat, len: nat): (a: ReadAnswer)
    ensures a.BytesRead? && |a.bytes| <= len
  {
    if offset >= |content| then BytesRead([])
    else if offset + len <= |content| then BytesRead(content[offset..offset + len])
    else BytesRead(content[offset..])
  }

  /** The records appended one after another, as successive writes leave them. */
  function Concat(records: seq<seq<uint8>>): seq<uint8>
    decreases |records|
  {
    if |records| == 0 then [] else Concat(records[..|records| - 1]) + records[|records| - 1]
  }

  /** Records of `len` bytes each lie back to back in their concatenation. */
  lemma {:induction false} ConcatSlice(records: seq<seq<uint8>>, len: nat, k: nat)
    requires forall i :: 0 <= i < |records| ==> |records[i]| == len
    requires k < |records|
    ensures |Concat(records)| == |records| * len
    ensures k * len + len <= |Concat(records)|
    ensures Concat(records)[k * len..k * len + len] == records[k]
    decreases |records|
  {
    var init := records[..|records| - 1];
    var last := records[|records| - 1];
    assert forall i :: 0 <= i < |init| ==> init[i] == records[i];
    ConcatLength(records, len);
    ConcatLength(init, len);
    if k < |init| {
      ConcatSlice(init, len, k);
      SliceBeforeSuffix(Concat(init), last, k * len, k * len + len);
    } else {
      SliceAfterPrefix(Concat(init), last, 0, len);
    }
  }

  lemma {:induction false} ConcatLength(records: seq<seq<uint8>>, len: nat)
    requires forall i :: 0 <= i < |records| ==> |records[i]| == len
    ensures |Concat(records)| == |records| * len
    decreases |records|
  {
    if |records| > 0 {
      var init := records[..|records| - 1];
      assert forall i :: 0 <= i < |init| ==> init[i] == records[i];
      ConcatLength(init, len);
      assert |Concat(records)| == |init| * len + len;
    }
  }

  /** Write/read round trip: after a header and a run of whole records was
      written (each `Write` returning 0), reading record `k` after the header
      gives that record back unchanged, and reading past the last record
      delivers nothing. */
  lemma ReadBackWritten(file: IndexFile, header: seq<uint8>, records: seq<seq<uint8>>, k: nat)
    requires forall i :: 0 <= i < |records| ==> |records[i]| == file.elementLen
    requires Write(file, file.elementLen) == 0
    requires k <= |records|
    ensures
      var content := header + Concat(records);
      var r := Read(file, ReadAt(content, |header| + k * file.elementLen, file.elementLen));
      && (k < |records| ==> r == Some(records[k]))
      && (k == |records| && file.elementLen > 0 ==> r.None?)
  {
    var len: nat := file.elementLen;
    var content := header + Concat(records);
    ConcatLength(records, len);
    if k < |records| {
      ConcatSlice(records, len, k);
      var off := k * len;
      SliceAfterPrefix(header, Concat(records), off, off + len);
    }
  }

  lemma SliceBeforeSuffix(a: seq<uint8>, b: seq<uint8>, i: nat, j: nat)
    requires i <= j <= |a|
    ensures (a + b)[i..j] == a[i..j]
  {
    assert forall t :: 0 <= t < j - i ==> (a + b)[i..j][t] == a[i..j][t];
  }

  lemma SliceAfterPrefix(a: seq<uint8>, b: seq<uint8>, i: nat, j: nat)
    requires i <= j <= |b|
    ensures (a + b)[|a| + i..|a| + j] == b[i..j]
  {
    assert forall t :: 0 <= t < j - i ==> (a + b)[|a| + i..|a| + j][t] == b[i..j][t];
  }

  /** The C return code of `lttng_index_file_read`. */
  function ReadCode(r: Option<seq<uint8>>): (code: int)
    ensures code == 0 <==> r.Some?
    ensures code == 0 || code == -1
  {
    if r.Some? then 0 else -1
  }

  /** Results of the system calls `lttng_index_file_create` makes. */
  datatype SysResult = SysOk | SysErr(errno: nat)

  datatype CreateAnswers = CreateAnswers(
    mkdirDir: SysResult,   // utils_mkdir of <path>/index
    unlinkOld: SysResult,  // utils_unlink_stream_file of a previous index file
    createFd: int,         // utils_create_stream_file: a descriptor, or negative
    headerWrite: int)      // lttng_write of the header

  datatype CreateOutcome =
    | Created(handle: RefState, written: seq<uint8>)
    | CreateFailed(closedFd: Option<int>)

  /** `lttng_index_file_create` (with the intended signed header-write test):
      an existing index directory and a missing old file are not errors; on
      success the file starts with the header of `major.minor`/`elementLen`
      and holds one reference; a descriptor that was created is closed on failure. */
  function Create(major: uint32, minor: uint32, elementLen: uint32, a: CreateAnswers): (o: CreateOutcome)
    requires IsTransferResult(a.headerWrite, HEADER_SIZE)
    ensures o.Created? <==>
              && (a.mkdirDir.SysOk? || a.mkdirDir.errno == EEXIST)
              && (a.unlinkOld.SysOk? || a.unlinkOld.errno == ENOENT)
              && a.createFd >= 0 && a.headerWrite == HEADER_SIZE
    ensures o.Created? ==>
              && o.handle == Live(IndexFile(a.createFd, major, minor, elementLen), 1)
              && |o.written| == HEADER_SIZE
              && DecodeHeader(o.written) == Header(CTF_INDEX_MAGIC, major, minor, elementLen)
    ensures o.CreateFailed? && o.closedFd.Some? ==> o.closedFd.value == a.createFd
    ensures o.CreateFailed? ==>
              (o.closedFd.Some? <==> (a.mkdirDir.SysOk? || a.mkdirDir.errno == EEXIST)
                                     && (a.unlinkOld.SysOk? || a.unlinkOld.errno == ENOENT)
                                     && a.createFd >= 0)
  {
    if a.mkdirDir.SysErr? && a.mkdirDir.errno != EEXIST then CreateFailed(None)
    else if a.unlinkOld.SysErr? && a.unlinkOld.errno != ENOENT then CreateFailed(None)
    else if a.createFd < 0 then CreateFailed(None)
    else if !FullTransfer(a.headerWrite, HEADER_SIZE) then CreateFailed(Some(a.createFd))
    else Created(Live(IndexFile(a.createFd, major, minor, elementLen), 1),
                 CreatedHeader(major, minor, elementLen))
  }

  /** `lttng_index_file_create` as written: `size_ret < sizeof(hdr)` converts
      `size_ret` to `size_t`, so a failed header write (-1) passes the test
      and the file is handed out with only the bytes that reached it. */
  function CreateAsWritten(bits: LongBits, major: uint32, minor: uint32, elementLen: uint32,
                           a: CreateAnswers): (o: CreateOutcome)
    requires IsSSize(bits, a.headerWrite) && IsTransferResult(a.headerWrite, HEADER_SIZE)
    ensures (&& (a.mkdirDir.SysOk? || a.mkdirDir.errno == EEXIST)
             && (a.unlinkOld.SysOk? || a.unlinkOld.errno == ENOENT)
             && a.createFd >= 0 && a.headerWrite == -1) ==>
              o == Created(Live(IndexFile(a.createFd, major, minor, elementLen), 1), [])
  {
    if a.mkdirDir.SysErr? && a.mkdirDir.errno != EEXIST then CreateFailed(None)
    else if a.unlinkOld.SysErr? && a.unlinkOld.errno != ENOENT then CreateFailed(None)
    else if a.createFd < 0 then CreateFailed(None)
    else if !FullTransferAsWritten(bits, a.headerWrite, HEADER_SIZE) then CreateFailed(Some(a.createFd))
    else Created(Live(IndexFile(a.createFd, major, minor, elementLen), 1),
                 CreatedHeader(major, minor, elementLen)[..if a.headerWrite < 0 then 0 else a.headerWrite])
  }

  /** As written, a failed header write still creates an index file, which
      holds no header and so is rejected when opened; the intended `Create`
      fails and closes the descriptor. */
  lemma FailedHeaderWriteCreates(bits: LongBits, fs: string -> OpenAnswer, pathName: string,
                                 channelName: string, count: uint64, current: uint64)
    requires fs(IndexPath(pathName, channelName, count, current)) == OpenedFd(4, BytesRead([]))
    ensures
      var a := CreateAnswers(SysOk, SysOk, 3, -1);
      && CreateAsWritten(bits, CTF_INDEX_MAJOR, CTF_INDEX_MINOR, 64, a).Created?
      && Create(CTF_INDEX_MAJOR, CTF_INDEX_MINOR, 64, a) == CreateFailed(Some(3))
      && Open(fs, pathName, channelName, count, current) == OpenRejected(ShortHeader, Some(4))
  {
  }

  /** Files created by the consumer (`CTF_INDEX_MAJOR.CTF_INDEX_MINOR`) reopen
      with the same version and record length. */
  lemma CreateThenOpen(fs: string -> OpenAnswer, pathName: string, channelName: string,
                       count: uint64, current: uint64, elementLen: uint32, a: CreateAnswers, readFd: nat)
    requires IsTransferResult(a.headerWrite, HEADER_SIZE)
    requires elementLen <= PACKET_INDEX_SIZE
    requires Create(CTF_INDEX_MAJOR, CTF_INDEX_MINOR, elementLen, a).Created?
    requires fs(IndexPath(pathName, channelName, count, current))
             == OpenedFd(readFd, BytesRead(Create(CTF_INDEX_MAJOR, CTF_INDEX_MINOR, elementLen, a).written))
    ensures Open(fs, pathName, channelName, count, current)
            == Opened(Live(IndexFile(readFd, CTF_INDEX_MAJOR, CTF_INDEX_MINOR, elementLen), 1))
  {
    CreatedHeaderOpens(fs, pathName, channelName, count, current, readFd, CTF_INDEX_MINOR, elementLen);
  }

  /* -------------------------------------------------------------- refcount */

  /** The reference-counted lifetime of an index file: live with a positive
      count, or released (its descriptor closed and the object freed). */
  datatype RefState = Live(file: IndexFile, refs: nat) | Released(closedFd: int) | UseAfterFree

  datatype RefOp = GetRef | PutRef

  predicate ValidRef(s: RefState) {
    s.Live? ==> s.refs >= 1
  }

  /** `lttng_index_file_get`. */
  function Get(s: RefState): (r: RefState)
    requires ValidRef(s)
    ensures ValidRef(r)
    ensures s.Live? ==> r == Live(s.file, s.refs + 1)
    ensures !s.Live? ==> r == UseAfterFree
  {
    match s
    case Live(f, n) => Live(f, n + 1)
    case _ => UseAfterFree
  }

  /** `lttng_index_file_put`: the last reference closes the descriptor and frees the file. */
  function Put(s: RefState): (r: RefState)
    requires ValidRef(s)
    ensures ValidRef(r)
    ensures s.Live? ==> (r.Released? <==> s.refs == 1)
    ensures s.Live? && r.Released? ==> r.closedFd == s.file.fd
    ensures s.Live? && s.refs > 1 ==> r == Live(s.file, s.refs - 1)
    ensures !s.Live? ==> r == UseAfterFree
  {
    match s
    case Live(f, n) => if n == 1 then Released(f.fd) else Live(f, n - 1)
    case _ => UseAfterFree
  }

  function Step(s: RefState, op: RefOp): (r: RefState)
    requires ValidRef(s)
    ensures ValidRef(r)
  {
    match op
    case GetRef => Get(s)
    case PutRef => Put(s)
  }

  /** The state after applying `ops` in order. */
  function Run(s: RefState, ops: seq<RefOp>): (r: RefState)
    requires ValidRef(s)
    ensures ValidRef(r)
    decreases |ops|
  {
    if |ops| == 0 then s else Step(Run(s, ops[..|ops| - 1]), ops[|ops| - 1])
  }

  /** Number of `get`s minus number of `put`s. */
  function Net(ops: seq<RefOp>): int
    decreases |ops|
  {
    if |ops| == 0 then 0
    else Net(ops[..|ops| - 1]) + (if ops[|ops| - 1] == GetRef then 1 else -1)
  }

  /** While every prefix leaves at least one reference, the file stays open
      and its count is the initial count plus gets minus puts. */
  lemma {:induction false} RunKeepsLive(f: IndexFile, n: nat, ops: seq<RefOp>)
    requires n >= 1
    requires forall k :: 0 <= k <= |ops| ==> n + Net(ops[..k]) >= 1
    ensures Run(Live(f, n), ops) == Live(f, n + Net(ops))
    decreases |ops|
  {
    if |ops| > 0 {
      var init := ops[..|ops| - 1];
      forall k | 0 <= k <= |init|
        ensures n + Net(init[..k]) >= 1
      {
        assert init[..k] == ops[..k];
      }
      RunKeepsLive(f, n, init);
      assert ops[..|ops|] == ops;
    }
  }

  /** The descriptor is closed (once, with the file's own descriptor) by the
      `put` that takes the count from one to zero. */
  lemma ReleaseAtZero(f: IndexFile, n: nat, ops: seq<RefOp>)
    requires n >= 1
    requires forall k :: 0 <= k <= |ops| ==> n + Net(ops[..k]) >= 1
    requires n + Net(ops) == 1
    ensures Run(Live(f, n), ops + [PutRef]) == Released(f.fd)
  {
    RunKeepsLive(f, n, ops);
    assert (ops + [PutRef])[..|ops|] == ops;
  }
}
