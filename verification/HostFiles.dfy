/** The devhost's file operations (choosh-hostd/src/fs_ops.rs): ranged reads that hash the whole
    file, and the compare-and-swap `write_file`.

    A path is the resolved path `confine` returned. The revision of a file is `h(content)` for a
    hash `h` that is a parameter everywhere; `Injective(h)` is stated where, and only where, the
    result needs that distinct contents have distinct revisions. */
module HostFiles {
  import opened Wrappers
  import opened Utf8

  type Path = string
  type Revision = string
  type Hash = seq<byte> -> Revision

  datatype Node = File(content: seq<byte>) | Directory

  type Files = map<Path, Node>

  datatype FsError = NotFound | NotAFile | BoundExceeded | BinaryContent | Io

  datatype FileRange = FileRange(bytes: seq<byte>, totalSize: nat, revision: Revision)

  datatype WriteOutcome = Written(newRevision: Revision) | Stale(currentRevision: Revision, currentContent: seq<byte>)

  type WriteResult = Result<WriteOutcome, FsError>

  const MAX_FILE_READ_RANGE_BYTES: nat := 128 * 1024

  /** A seek takes the offset as a signed 64-bit number, and fails on one that does not fit. A file
      system may be stricter, never laxer. */
  const SEEK_LIMIT: nat := 0x8000_0000_0000_0000

  const HASH_BUFFER_BYTES: nat := 64 * 1024

  ghost predicate Injective(h: Hash) {
    forall a, b :: h(a) == h(b) ==> a == b
  }

  function Min(a: nat, b: nat): nat {
    if a < b then a else b
  }

  /** `metadata` followed by `is_file`. */
  function Stat(files: Files, path: Path): Result<seq<byte>, FsError> {
    if path !in files then Err(NotFound)
    else match files[path]
      case Directory => Err(NotAFile)
      case File(content) => Ok(content)
  }

  function ReadRange(files: Files, path: Path, range: Option<(nat, nat)>, maxRange: nat, h: Hash)
    : Result<FileRange, FsError>
  {
    var content :- Stat(files, path);
    var (offset, length) := if range.Some? then range.value else (0, Min(|content|, maxRange));
    if length > maxRange then Err(BoundExceeded)
    else if offset >= SEEK_LIMIT then Err(Io)
    else
      var capped := Min(length, if offset < |content| then |content| - offset else 0);
      Ok(FileRange(if capped == 0 then [] else content[offset..offset + capped], |content|, h(content)))
  }

  /** What a ranged read brings back: the bytes from the offset on, as many as were asked for or as there
      are, with the size and the revision of the whole file; and every reason it may fail for. Without a
      range it is the front of the file, not the whole of it. */
  lemma RangeReadExact(files: Files, path: Path, range: Option<(nat, nat)>, maxRange: nat, h: Hash)
    ensures var r := ReadRange(files, path, range, maxRange, h);
            && (r == Err(NotFound) <==> path !in files)
            && (r == Err(NotAFile) <==> path in files && files[path].Directory?)
            && (r == Err(BoundExceeded) <==>
                  path in files && files[path].File? && range.Some? && range.value.1 > maxRange)
            && (r == Err(Io) <==>
                  && path in files && files[path].File?
                  && range.Some? && range.value.1 <= maxRange && range.value.0 >= 0x8000_0000_0000_0000)
            && r != Err(BinaryContent)
    ensures var r := ReadRange(files, path, range, maxRange, h);
            r.Ok? ==>
              && path in files && files[path].File?
              && var content, offset := files[path].content, if range.Some? then range.value.0 else 0;
                 var asked, front := if range.Some? then range.value.1 else maxRange, content[..Min(offset, |content|)];
              && front + r.value.bytes <= content && |r.value.bytes| <= asked
              && (|r.value.bytes| < asked ==> front + r.value.bytes == content)
              && r.value.totalSize == |content| && r.value.revision == h(content)
  {
    if path in files && files[path].File? {
      var content := files[path].content;
      assert content[..|content|] == content;
    }
  }

  /** What `write_file` rejects before it looks at the revision. */
  function Precheck(files: Files, path: Path, content: seq<byte>, maxContent: nat): Result<seq<byte>, FsError> {
    var current :- Stat(files, path);
    if |content| > maxContent then Err(BoundExceeded)
    else if 0 in content then Err(BinaryContent)
    else Ok(current)
  }

  /** `write_file` as one atomic compare-and-swap. */
  function CompareAndSwap(files: Files, path: Path, base: Revision, content: seq<byte>, maxContent: nat, h: Hash)
    : (Files, WriteResult)
  {
    match Precheck(files, path, content, maxContent)
    case Err(e) => (files, Err(e))
    case Ok(current) =>
      if h(current) != base then (files, Ok(Stale(h(current), current)))
      else (files[path := File(content)], Ok(Written(h(content))))
  }

  /** `hash_whole_file`: streams the file through the hasher in reads of any size up to the buffer. */
  method HashWholeFile(content: seq<byte>, h: Hash) returns (revision: Revision, cursor: nat)
    ensures revision == h(content) && cursor == |content|
  {
    var hashed: seq<byte> := [];
    cursor := 0;
    while true
      invariant cursor <= |content| && hashed == content[..cursor]
      decreases |content| - cursor
    {
      var available := Min(HASH_BUFFER_BYTES, |content| - cursor);
      var read :| 0 <= read <= available && (read == 0 <==> available == 0);
      if read == 0 {
        break;
      }
      hashed := hashed + content[cursor..cursor + read];
      cursor := cursor + read;
    }
    assert content[..cursor] == content;
    revision := h(hashed);
  }

  /** The working copies one `hostd` process serves. */
  class Host {
    var files: Files
    const revisionOf: Hash

    constructor (files: Files, revisionOf: Hash)
      ensures this.files == files && this.revisionOf == revisionOf
    {
      this.files := files;
      this.revisionOf := revisionOf;
    }

    method ReadFileRange(path: Path, range: Option<(nat, nat)>, maxRange: nat) returns (r: Result<FileRange, FsError>)
      ensures r == ReadRange(files, path, range, maxRange, revisionOf)
    {
      if path !in files {
        return Err(NotFound);
      }
      if files[path].Directory? {
        return Err(NotAFile);
      }
      var content := files[path].content;
      var totalSize := |content|;
      var offset, requested := 0, Min(totalSize, maxRange);
      if range.Some? {
        offset, requested := range.value.0, range.value.1;
      }
      if requested > maxRange {
        return Err(BoundExceeded);
      }
      var revision, eof := HashWholeFile(content, revisionOf);
      if offset >= SEEK_LIMIT {
        return Err(Io);
      }
      var capped := Min(requested, if offset < totalSize then totalSize - offset else 0);
      var buffer: seq<byte> := [];
      if capped > 0 {
        buffer := content[offset..offset + capped];
      }
      return Ok(FileRange(buffer, totalSize, revision));
    }

    /** The body between lock and unlock; DocumentProtocol interleaves its steps. */
    method WriteFile(path: Path, base: Revision, content: seq<byte>, maxContent: nat) returns (r: WriteResult)
      modifies this
      ensures (files, r) == CompareAndSwap(old(files), path, base, content, maxContent, revisionOf)
    {
      if path !in files {
        return Err(NotFound);
      }
      if files[path].Directory? {
        return Err(NotAFile);
      }
      if |content| > maxContent {
        return Err(BoundExceeded);
      }
      if 0 in content {
        return Err(BinaryContent);
      }
      var current := files[path].content;
      var currentRevision := revisionOf(current);
      if currentRevision != base {
        return Ok(Stale(currentRevision, current));
      }
      files := files[path := File(content)];
      return Ok(Written(revisionOf(content)));
    }
  }
}

/** The phone side of a whole-file read (choosh-android-bridge/src/engine.rs, `read_whole_file`). */
module DocumentReader {
  import opened Wrappers
  import opened Utf8
  import opened HostFiles

  datatype ReadError = Transport | Application(error: FsError) | OtherError

  /** What one round trip brings back; `Garbled` is an unexpected variant or invalid base64. */
  datatype Reply = Range(range: FileRange) | Rejected(error: FsError) | Lost | Garbled

  /** The loop's variables: `content`, `first_revision`, `offset`. */
  datatype Assembly = Assembly(content: seq<byte>, firstRevision: Option<Revision>, offset: nat)

  datatype Document = Document(content: seq<byte>, totalSize: nat, revision: Revision)

  datatype Progress = More(assembly: Assembly) | Complete(document: Document) | Failed(error: ReadError)

  const START := Assembly([], None, 0)

  /** One turn of the loop: what a reply does to the assembled content. */
  function Absorb(a: Assembly, reply: Reply): Progress {
    match reply
    case Lost => Failed(Transport)
    case Rejected(e) => Failed(Application(e))
    case Garbled => Failed(OtherError)
    case Range(r) =>
      if a.firstRevision.Some? && a.firstRevision.value != r.revision then Failed(OtherError)
      else
        var first := if a.firstRevision.Some? then a.firstRevision.value else r.revision;
        var content := a.content + r.bytes;
        var offset := a.offset + |r.bytes|;
        if offset >= r.totalSize || |r.bytes| == 0 then Complete(Document(content, r.totalSize, first))
        else More(Assembly(content, Some(first), offset))
  }

  /** What the host answers to the request the loop sends when it stands at `offset`. */
  function HostReply(files: Files, path: Path, offset: nat, h: Hash): Reply {
    match ReadRange(files, path, Some((offset, MAX_FILE_READ_RANGE_BYTES)), MAX_FILE_READ_RANGE_BYTES, h)
    case Ok(r) => Range(r)
    case Err(e) => Rejected(e)
  }

  /** So far the assembly is a prefix of `snapshot`, and carries its revision. */
  ghost predicate PrefixOf(a: Assembly, snapshot: seq<byte>, h: Hash) {
    && a.firstRevision == Some(h(snapshot))
    && 0 < a.offset < |snapshot|
    && a.content == snapshot[..a.offset]
  }

  /** One honest reply: the document comes out whole, or the assembly grows by a full chunk of the
      same snapshot. It cannot pick up bytes of another file state. */
  lemma AbsorbKeepsSnapshot(a: Assembly, snapshot: seq<byte>, files: Files, path: Path, h: Hash)
    requires Injective(h)
    requires a == START || PrefixOf(a, snapshot, h)
    ensures match Absorb(a, HostReply(files, path, a.offset, h))
            case Failed(e) =>
              || Stat(files, path) == Err(NotFound) || Stat(files, path) == Err(NotAFile)
              || (a != START && Stat(files, path) != Ok(snapshot))
              || a.offset >= SEEK_LIMIT
            case Complete(d) =>
              && Stat(files, path) == Ok(d.content)
              && (a != START ==> d.content == snapshot)
              && d == Document(d.content, |d.content|, h(d.content))
              && |d.content| <= a.offset + MAX_FILE_READ_RANGE_BYTES
            case More(a') =>
              && Stat(files, path).Ok?
              && var now := Stat(files, path).value;
              && (a != START ==> now == snapshot)
              && PrefixOf(a', now, h) && a'.offset == a.offset + MAX_FILE_READ_RANGE_BYTES
  {
    if Stat(files, path).Ok? {
      var content := Stat(files, path).value;
      assert content[..|content|] == content;
      if a.offset < SEEK_LIMIT && (a == START || content == snapshot) {
        NextChunk(a, content, files, path, h);
      }
    }
  }

  /** The reply goes on where the assembly stands. */
  lemma NextChunk(a: Assembly, content: seq<byte>, files: Files, path: Path, h: Hash)
    requires Stat(files, path) == Ok(content) && a.offset < SEEK_LIMIT
    requires a == START || PrefixOf(a, content, h)
    ensures var reply := HostReply(files, path, a.offset, h);
            var capped := Min(MAX_FILE_READ_RANGE_BYTES, |content| - a.offset);
            && reply == Range(FileRange(reply.range.bytes, |content|, h(content)))
            && |reply.range.bytes| == capped && a.content + reply.range.bytes == content[..a.offset + capped]
  {
    var capped := Min(MAX_FILE_READ_RANGE_BYTES, |content| - a.offset);
    var bytes := HostReply(files, path, a.offset, h).range.bytes;
    assert bytes == content[a.offset..a.offset + capped];
    assert a.content == content[..a.offset];
  }

  /** Why request `k` may fail the read: a network fault, no file, another file state than the first
      request saw, or a file that goes on behind the seek limit. */
  predicate Disturbed(world: nat -> Files, fault: nat -> Option<Reply>, path: Path, k: nat) {
    || fault(k).Some? || Stat(world(k), path).Err? || Stat(world(k), path) != Stat(world(0), path)
    || |Stat(world(k), path).value| > SEEK_LIMIT
  }

  /** The reply to request `k` of a read that got that far: requests advance by full bounds. */
  function ReplyAt(world: nat -> Files, fault: nat -> Option<Reply>, path: Path, k: nat, h: Hash): Reply {
    if fault(k).Some? then fault(k).value else HostReply(world(k), path, k * MAX_FILE_READ_RANGE_BYTES, h)
  }

  /** `read_whole_file` against a host whose files may be anything at each request: request `k` is
      answered from `world(k)`, unless the network answers `fault(k)` instead.

      A document that comes back is the complete content of one real file state (the state every
      request saw), with that state's revision and length. The loop needs
      max(1, ceil(size / bound)) requests, and an undisturbed read succeeds. A failed one tells a lost
      connection from a rejection by the host, with the host's error, and from everything else. */
  method ReadWholeFile(world: nat -> Files, fault: nat -> Option<Reply>, path: Path, h: Hash)
    returns (r: Result<Document, ReadError>, requests: nat)
    requires Injective(h)
    requires forall k :: fault(k).Some? ==> !fault(k).value.Range?
    ensures requests >= 1
    ensures r.Ok? ==>
              var d := r.value;
              && d.totalSize == |d.content| && d.revision == h(d.content)
              && (forall k :: 0 <= k < requests ==> Stat(world(k), path) == Ok(d.content))
              && var n := if d.content == [] then 1 else |d.content|;
              && (requests - 1) * (128 * 1024) < n <= requests * (128 * 1024)
    ensures match Stat(world(0), path)
            case Err(_) => requests == 1 && r.Err?
            case Ok(c) => (requests - 1) * (128 * 1024) < (if c == [] then 1 else |c|)
    ensures r.Err? ==> exists k :: 0 <= k < requests && Disturbed(world, fault, path, k)
    ensures r.Err? ==>
              var first, last := ReplyAt(world, fault, path, 0, h), ReplyAt(world, fault, path, requests - 1, h);
              && (r.error == Transport <==> last.Lost?)
              && (r.error.Application? <==> last.Rejected?) && (last.Rejected? ==> r.error.error == last.error)
              && (last.Range? ==> first.Range? && first.range.revision != last.range.revision)
  {
    var a := START;
    ghost var snapshot: seq<byte> := [];
    requests := 0;
    while true
      invariant a == START ==> requests == 0
      invariant a != START ==> PrefixOf(a, snapshot, h) && requests > 0
      invariant a != START ==> forall k :: 0 <= k < requests ==> Stat(world(k), path) == Ok(snapshot)
      invariant a.offset == requests * MAX_FILE_READ_RANGE_BYTES
      invariant a != START ==>
                  var first := ReplyAt(world, fault, path, 0, h);
                  first.Range? && a.firstRevision == Some(first.range.revision)
      decreases if a == START then 1 else 0, |snapshot| - a.offset
    {
      AbsorbKeepsSnapshot(a, snapshot, world(requests), path, h);
      var reply := if fault(requests).Some? then fault(requests).value
          else HostReply(world(requests), path, a.offset, h);
      ghost var k := requests;
      requests := requests + 1;
      match Absorb(a, reply) {
        case Failed(e) =>
          assert Disturbed(world, fault, path, k);
          return Err(e), requests;
        case Complete(d) =>
          return Ok(d), requests;
        case More(a') =>
          if a == START {
            snapshot := Stat(world(k), path).value;
          }
          a := a';
      }
    }
  }
}
