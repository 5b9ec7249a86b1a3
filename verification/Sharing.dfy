/** Content-addressed sharing: upload, verified download, and the in-memory store below them.
    The hash, written in hexadecimal, is any injective function whose values are not empty and hold
    no separator. */
module Sharing {
  import opened Prelude

  const SEPARATOR: Byte := 10
  const INT_MAX: int := 0x7FFF_FFFF_FFFF_FFFF

  type Hash = Bytes -> Bytes

  ghost predicate IsHash(hash: Hash) {
    && (forall x, y :: hash(x) == hash(y) ==> x == y)
    && (forall x :: hash(x) != [] && SEPARATOR !in hash(x))
  }

  // ----- chunks and metafiles -----

  function Chunks(data: Bytes, size: nat): seq<Bytes>
    requires size > 0
    decreases |data|
  {
    if data == [] then []
    else if |data| <= size then [data]
    else [data[..size]] + Chunks(data[size..], size)
  }

  function Concat(parts: seq<Bytes>): Bytes {
    if parts == [] then [] else parts[0] + Concat(parts[1..])
  }

  function Join(parts: seq<Bytes>): Bytes {
    if parts == [] then []
    else if |parts| == 1 then parts[0]
    else parts[0] + [SEPARATOR] + Join(parts[1..])
  }

  /** The parts between separators; one empty part when there is nothing to split. */
  function Split(text: Bytes): (parts: seq<Bytes>)
    ensures parts != []
  {
    if text == [] then [[]]
    else
      var rest := Split(text[1..]);
      if text[0] == SEPARATOR then [[]] + rest else [[text[0]] + rest[0]] + rest[1..]
  }

  function Hashes(hash: Hash, chunks: seq<Bytes>): seq<Bytes> {
    seq(|chunks|, i requires 0 <= i < |chunks| => hash(chunks[i]))
  }

  function Metafile(hash: Hash, chunks: seq<Bytes>): Bytes {
    Join(Hashes(hash, chunks))
  }

  /** The metahash an upload of data gives. */
  function Metahash(hash: Hash, data: Bytes, size: nat): Bytes
    requires size > 0
  {
    hash(Metafile(hash, Chunks(data, size)))
  }

  /** The chunks of what is left from i on. */
  function ChunksFrom(data: Bytes, i: nat, size: nat): seq<Bytes>
    requires size > 0
  {
    if i < |data| then Chunks(data[i..], size) else []
  }

  lemma FirstChunk(data: Bytes, i: nat, end: nat, size: nat)
    requires size > 0 && i < |data| && end == if i + size > |data| then |data| else i + size
    ensures ChunksFrom(data, i, size) == [data[i..end]] + ChunksFrom(data, end, size)
  {
    assert data[i..][..end - i] == data[i..end];
    if end < |data| { assert data[i..][size..] == data[end..]; } else { assert data[i..] == data[i..end]; }
  }

  lemma NoChunks(data: Bytes, size: nat)
    requires size > 0
    ensures data == [] ==> Chunks(data, size) == []
  {
  }

  type Int64 = x: int | -INT_MAX - 1 <= x <= INT_MAX

  /** The end of the last chunk, before it is cut to the length of the data, is still an int. */
  predicate LastEndFits(length: nat, size: nat) {
    length > 0 && size > 0 ==> (length - 1) / size * size + size <= INT_MAX
  }

  lemma MultipleBelow(k: nat, q: nat, r: nat, size: nat)
    requires r < size && k * size <= q * size + r
    ensures k * size <= q * size
  {
    MultipleIsAtLeast(k - q, size);
    assert (k - q) * size == k * size - q * size;
  }

  lemma EndFits(length: nat, size: nat, k: nat)
    requires size > 0 && k * size < length && LastEndFits(length, size)
    ensures k * size + size <= INT_MAX
  {
    var q, r := Quotient(length - 1, size);
    MultipleBelow(k, q, r, size);
  }

  /** splitIntoChunks, in the int arithmetic of the source. */
  method SplitIntoChunks(data: Bytes, chunkSize: nat) returns (chunks: seq<Bytes>)
    requires 0 < chunkSize && |data| <= INT_MAX && LastEndFits(|data|, chunkSize)
    ensures chunks == Chunks(data, chunkSize)
  {
    hide Chunks, LastEndFits;
    chunks := [];
    var i: Int64 := 0;
    ghost var k := 0;
    assert data[0..] == data;
    NoChunks(data, chunkSize);
    while i < |data|
      invariant 0 <= i && k >= 0 && i == k * chunkSize
      invariant Chunks(data, chunkSize) == chunks + ChunksFrom(data, i, chunkSize)
    {
      EndFits(|data|, chunkSize, k);
      assert (k + 1) * chunkSize == k * chunkSize + chunkSize;
      var end: Int64 := i + chunkSize;
      if end > |data| { end := |data|; }
      FirstChunk(data, i, end, chunkSize);
      var chunk := data[i..end];
      assert chunks + ([chunk] + ChunksFrom(data, end, chunkSize)) ==
                (chunks + [chunk]) + ChunksFrom(data, end, chunkSize);
      chunks := chunks + [chunk];
      i := i + chunkSize;
      k := k + 1;
    }
  }

  /** Chunks put together give the data back; all but the last have exactly the chunk size, and the
      last is not empty and not longer. */
  lemma {:induction false} ChunksFacts(data: Bytes, size: nat)
    requires size > 0
    ensures var chunks := Chunks(data, size);
      && Concat(chunks) == data
      && (forall i :: 0 <= i < |chunks| - 1 ==> |chunks[i]| == size)
      && (forall i :: 0 <= i < |chunks| ==> 0 < |chunks[i]| <= size)
      && (data != [] ==> chunks != [])
    decreases |data|
  {
    if data != [] && |data| > size {
      ChunksFacts(data[size..], size);
      assert data == data[..size] + data[size..];
    }
  }

  lemma {:induction false} SplitPart(part: Bytes, rest: Bytes)
    requires SEPARATOR !in part
    ensures Split(part + [SEPARATOR] + rest) == [part] + Split(rest)
    decreases |part|
  {
    var text := part + [SEPARATOR] + rest;
    if part == [] {
      assert text[1..] == rest;
    } else {
      assert text[0] == part[0] && part[0] in part && text[1..] == part[1..] + [SEPARATOR] + rest;
      SplitPart(part[1..], rest);
      assert Split(text[1..])[1..] == Split(rest) && [part[0]] + part[1..] == part;
    }
  }

  lemma {:induction false} SplitNothing(part: Bytes)
    requires SEPARATOR !in part
    ensures Split(part) == [part]
  {
    if part != [] {
      assert part[0] in part;
      SplitNothing(part[1..]);
      assert [part[0]] + part[1..] == part;
    }
  }

  /** Splitting a joined metafile gives back the list of hashes. */
  lemma {:induction false} SplitJoin(parts: seq<Bytes>)
    requires parts != [] && forall p :: p in parts ==> SEPARATOR !in p
    ensures Split(Join(parts)) == parts
  {
    assert parts[0] in parts;
    if |parts| == 1 {
      SplitNothing(parts[0]);
    } else {
      SplitPart(parts[0], Join(parts[1..]));
      SplitJoin(parts[1..]);
    }
  }

  // ----- the in-memory store -----

  type Blobs = map<Bytes, Bytes>

  /** A value that is absent or empty reads as nil. */
  function Lookup(blobs: Blobs, key: Bytes): Option<Bytes> {
    if key in blobs && blobs[key] != [] then Some(blobs[key]) else None
  }

  function Value(val: Option<Bytes>): Bytes {
    if val.Some? then val.value else []
  }

  // ----- what upload and download compute -----

  function StoreChunks(hash: Hash, blobs: Blobs, chunks: seq<Bytes>): Blobs
    decreases |chunks|
  {
    if chunks == [] then blobs else StoreChunks(hash, blobs[hash(chunks[0]) := chunks[0]], chunks[1..])
  }

  function Uploaded(hash: Hash, blobs: Blobs, data: Bytes, size: nat): Blobs
    requires size > 0
  {
    var chunks := Chunks(data, size);
    StoreChunks(hash, blobs, chunks)[Metahash(hash, data, size) := Metafile(hash, chunks)]
  }

  /** What becomes of one fetch: nobody is known to have the key, the request fails before or after it is
      sent, or a peer replies with whatever bytes it likes. */
  datatype Reply = NoPeers | NotSent | RequestFailed | Replied(value: Bytes)

  /** The result of fetching a key: an error, nil without an error, or data. */
  datatype Fetch = Failed | Nothing | Fetched(value: Bytes)

  /** A failed request gives nil and no error; only data that hashes to the key is accepted. */
  function FetchResult(hash: Hash, key: Bytes, reply: Reply): Fetch {
    match reply
    case NoPeers => Failed
    case NotSent => Nothing
    case RequestFailed => Nothing
    case Replied(value) => if hash(value) == key then Fetched(value) else Failed
  }

  /** The outcome of a download or of a part of it: the store, the data unless an error ended it, how many
      fetches were tried and how many requests they sent, and whether none of the requests failed. */
  datatype Download = Download(blobs: Blobs, data: Option<Bytes>, fetches: nat, requests: nat, unfailing: bool)

  predicate Fails(reply: Reply) {
    reply.NotSent? || reply.RequestFailed?
  }

  function Requests(reply: Reply): nat {
    if reply.NoPeers? || reply.NotSent? then 0 else 1
  }

  /** Reads a key from the store or fetches it with the next reply, and stores what it got. */
  function Obtain(hash: Hash, blobs: Blobs, key: Bytes, reply: Reply): Download {
    match Lookup(blobs, key)
    case Some(value) => Download(blobs[key := value], Some(value), 0, 0, true)
    case None =>
      match FetchResult(hash, key, reply)
      case Failed => Download(blobs, None, 1, Requests(reply), true)
      case Nothing => Download(blobs[key := []], Some([]), 1, Requests(reply), false)
      case Fetched(value) => Download(blobs[key := value], Some(value), 1, 1, true)
  }

  /** One part after the other: the data put together, fetches and requests added up. */
  function Then(first: Download, rest: Download): Download {
    Download(rest.blobs,
             if rest.data.Some? then Some(Value(first.data) + rest.data.value) else None,
             first.fetches + rest.fetches,
             first.requests + rest.requests,
             first.unfailing && rest.unfailing)
  }

  /** The chunks one after the other; replies(k) is what becomes of fetch number k. */
  function ObtainAll(hash: Hash, blobs: Blobs, keys: seq<Bytes>, replies: nat -> Reply, from: nat): Download
    decreases |keys|
  {
    if keys == [] then Download(blobs, Some([]), 0, 0, true)
    else
      var first := Obtain(hash, blobs, keys[0], replies(from));
      if first.data.None? then first
      else Then(first, ObtainAll(hash, first.blobs, keys[1..], replies, from + first.fetches))
  }

  /** One chunk of a download and the rest of it. */
  lemma ObtainAllUnfolds(hash: Hash, blobs: Blobs, keys: seq<Bytes>, replies: nat -> Reply, from: nat)
    requires keys != []
    ensures var first := Obtain(hash, blobs, keys[0], replies(from));
      ObtainAll(hash, blobs, keys, replies, from) ==
        if first.data.None? then first
        else Then(first, ObtainAll(hash, first.blobs, keys[1..], replies, from + first.fetches))
  {
    hide Obtain, Then;
  }

  lemma HashesUnfold(hash: Hash, chunks: seq<Bytes>)
    requires chunks != []
    ensures Hashes(hash, chunks) != [] && Hashes(hash, chunks)[0] == hash(chunks[0])
    ensures Hashes(hash, chunks)[1..] == Hashes(hash, chunks[1..])
  {
  }

  /** The metafile, then every chunk it lists. */
  function Downloaded(hash: Hash, blobs: Blobs, metahash: Bytes, replies: nat -> Reply): Download {
    var metafile := Obtain(hash, blobs, metahash, replies(0));
    if metafile.data.None? then metafile
    else
      var keys := Split(metafile.data.value);
      Then(metafile.(data := Some([])), ObtainAll(hash, metafile.blobs, keys, replies, metafile.fetches))
  }

  // ----- every stored value hashes to its key -----

  /** Every value that is not nil is stored under its own hash. */
  ghost predicate Sound(hash: Hash, blobs: Blobs) {
    forall k :: k in blobs && blobs[k] != [] ==> hash(blobs[k]) == k
  }

  lemma {:induction false} StoreChunksSound(hash: Hash, blobs: Blobs, chunks: seq<Bytes>)
    requires Sound(hash, blobs)
    ensures Sound(hash, StoreChunks(hash, blobs, chunks))
    decreases |chunks|
  {
    if chunks != [] { StoreChunksSound(hash, blobs[hash(chunks[0]) := chunks[0]], chunks[1..]); }
  }

  lemma {:induction false} ObtainAllSound(hash: Hash, blobs: Blobs, keys: seq<Bytes>, replies: nat -> Reply, from: nat)
    requires Sound(hash, blobs)
    ensures Sound(hash, ObtainAll(hash, blobs, keys, replies, from).blobs)
    decreases |keys|
  {
    hide Sound, Obtain;
    if keys != [] {
      ObtainedIsGenuine(hash, blobs, keys[0], replies(from));
      var first := Obtain(hash, blobs, keys[0], replies(from));
      if first.data.Some? { ObtainAllSound(hash, first.blobs, keys[1..], replies, from + first.fetches); }
    }
  }

  datatype Operation =
    | UploadOf(data: Bytes, size: nat)
    | DownloadOf(metahash: Bytes, replies: nat -> Reply)

  function After(hash: Hash, blobs: Blobs, op: Operation): Blobs {
    match op
    case UploadOf(data, size) => if size == 0 then blobs else Uploaded(hash, blobs, data, size)
    case DownloadOf(metahash, replies) => Downloaded(hash, blobs, metahash, replies).blobs
  }

  function AfterAll(hash: Hash, blobs: Blobs, ops: seq<Operation>): Blobs
    decreases |ops|
  {
    if ops == [] then blobs else AfterAll(hash, After(hash, blobs, ops[0]), ops[1..])
  }

  lemma AfterSound(hash: Hash, blobs: Blobs, op: Operation)
    requires Sound(hash, blobs)
    ensures Sound(hash, After(hash, blobs, op))
  {
    match op
    case UploadOf(data, size) =>
      if size > 0 { StoreChunksSound(hash, blobs, Chunks(data, size)); }
    case DownloadOf(metahash, replies) =>
      var metafile := Obtain(hash, blobs, metahash, replies(0));
      if metafile.data.Some? {
        ObtainAllSound(hash, metafile.blobs, Split(metafile.data.value), replies, metafile.fetches);
      }
  }

  /** Whatever bytes peers reply, after any run of uploads and downloads on an empty store every value
      that is not nil hashes to its key. */
  lemma {:induction false} StoreStaysSound(hash: Hash, blobs: Blobs, ops: seq<Operation>)
    requires Sound(hash, blobs)
    ensures Sound(hash, AfterAll(hash, blobs, ops))
    decreases |ops|
  {
    if ops != [] {
      AfterSound(hash, blobs, ops[0]);
      StoreStaysSound(hash, After(hash, blobs, ops[0]), ops[1..]);
    }
  }

  // ----- a download returns what was uploaded -----

  ghost predicate NoneEmpty(parts: seq<Bytes>) {
    forall i :: 0 <= i < |parts| ==> parts[i] != []
  }

  /** What is obtained without a failed request hashes to its key; a failed request gives nothing. */
  lemma ObtainedIsGenuine(hash: Hash, blobs: Blobs, key: Bytes, reply: Reply)
    requires Sound(hash, blobs)
    ensures var d := Obtain(hash, blobs, key, reply);
      Sound(hash, d.blobs) && (d.data.Some? ==> if d.unfailing then hash(d.data.value) == key else d.data.value == [])
  {
  }

  lemma ObtainedChunk(hash: Hash, blobs: Blobs, chunk: Bytes, reply: Reply)
    requires IsHash(hash) && Sound(hash, blobs)
    ensures var d := Obtain(hash, blobs, hash(chunk), reply);
      Sound(hash, d.blobs) && (d.data.Some? ==> d.data.value == if d.unfailing then chunk else [])
  {
    ObtainedIsGenuine(hash, blobs, hash(chunk), reply);
  }

  /** d holds all the chunks if no request failed, and less than that if one did. */
  ghost predicate WholeIff(d: Download, chunks: seq<Bytes>) {
    d.data.Some? ==> if d.unfailing then d.data.value == Concat(chunks) else |d.data.value| < |Concat(chunks)|
  }

  lemma HeadNotEmpty(parts: seq<Bytes>)
    requires NoneEmpty(parts) && parts != []
    ensures parts[0] != [] && NoneEmpty(parts[1..])
  {
  }

  lemma NothingToObtain(hash: Hash, blobs: Blobs, replies: nat -> Reply, from: nat)
    ensures WholeIff(ObtainAll(hash, blobs, Hashes(hash, []), replies, from), [])
    ensures UnfailingFrom(ObtainAll(hash, blobs, [], replies, from), replies, from)
  {
  }

  lemma WholeIffJoins(first: Download, rest: Download, chunks: seq<Bytes>)
    requires chunks != [] && chunks[0] != []
    requires first.data.Some? ==> first.data.value == (if first.unfailing then chunks[0] else [])
    requires first.data.Some? ==> WholeIff(rest, chunks[1..])
    ensures WholeIff(if first.data.None? then first else Then(first, rest), chunks)
  {
  }

  /** Each chunk whose request failed is left out, so the data is whole exactly when none failed. */
  lemma {:induction false} ObtainAllWholeIff(hash: Hash, blobs: Blobs, chunks: seq<Bytes>, replies: nat -> Reply,
      from: nat)
    requires IsHash(hash) && Sound(hash, blobs) && NoneEmpty(chunks)
    ensures WholeIff(ObtainAll(hash, blobs, Hashes(hash, chunks), replies, from), chunks)
    decreases |chunks|
  {
    hide *;
    if chunks == [] {
      NothingToObtain(hash, blobs, replies, from);
      return;
    }
    HeadNotEmpty(chunks);
    HashesUnfold(hash, chunks);
    ObtainAllUnfolds(hash, blobs, Hashes(hash, chunks), replies, from);
    ObtainedChunk(hash, blobs, chunks[0], replies(from));
    var first := Obtain(hash, blobs, hash(chunks[0]), replies(from));
    var rest := ObtainAll(hash, first.blobs, Hashes(hash, chunks[1..]), replies, from + first.fetches);
    if first.data.Some? { ObtainAllWholeIff(hash, first.blobs, chunks[1..], replies, from + first.fetches); }
    WholeIffJoins(first, rest, chunks);
  }

  /** The empty key is the hash of nothing, so it is never obtained without a failed request, and then
      gives nothing. */
  lemma EmptyKeyIsNeverGenuine(hash: Hash, blobs: Blobs, replies: nat -> Reply, from: nat)
    requires IsHash(hash) && Sound(hash, blobs)
    ensures var d := ObtainAll(hash, blobs, [[]], replies, from); d.data.Some? ==> !d.unfailing && d.data.value == []
  {
    ObtainedIsGenuine(hash, blobs, [], replies(from));
    var keys: seq<Bytes> := [[]];
    assert keys[1..] == [];
  }

  ghost predicate NoneFails(replies: nat -> Reply, from: nat, to: nat) {
    forall k: nat :: from <= k < to ==> !Fails(replies(k))
  }

  /** Of the fetches d tried, from number from on, none failed exactly when d says so. */
  ghost predicate UnfailingFrom(d: Download, replies: nat -> Reply, from: nat) {
    d.unfailing <==> NoneFails(replies, from, from + d.fetches)
  }

  lemma UnfailingJoins(first: Download, rest: Download, replies: nat -> Reply, from: nat)
    requires UnfailingFrom(first, replies, from)
    requires first.data.Some? ==> UnfailingFrom(rest, replies, from + first.fetches)
    ensures UnfailingFrom(if first.data.None? then first else Then(first, rest), replies, from)
  {
  }

  lemma {:induction false} ObtainAllUnfailingIff(hash: Hash, blobs: Blobs, keys: seq<Bytes>, replies: nat -> Reply,
      from: nat)
    ensures UnfailingFrom(ObtainAll(hash, blobs, keys, replies, from), replies, from)
    decreases |keys|
  {
    hide *;
    if keys == [] {
      NothingToObtain(hash, blobs, replies, from);
      return;
    }
    ObtainAllUnfolds(hash, blobs, keys, replies, from);
    ObtainUnfailingIff(hash, blobs, keys[0], replies, from);
    var first := Obtain(hash, blobs, keys[0], replies(from));
    var rest := ObtainAll(hash, first.blobs, keys[1..], replies, from + first.fetches);
    if first.data.Some? { ObtainAllUnfailingIff(hash, first.blobs, keys[1..], replies, from + first.fetches); }
    UnfailingJoins(first, rest, replies, from);
  }

  lemma ObtainUnfailingIff(hash: Hash, blobs: Blobs, key: Bytes, replies: nat -> Reply, from: nat)
    ensures UnfailingFrom(Obtain(hash, blobs, key, replies(from)), replies, from)
  {
  }

  /** How many of these fetches sent a request: not those for which nobody was known or that failed before. */
  function SentAmong(replies: nat -> Reply, from: nat, count: nat): nat
    decreases count
  {
    if count == 0 then 0
    else
      (if replies(from).Replied? || replies(from).RequestFailed? then 1 else 0) +
      SentAmong(replies, from + 1, count - 1)
  }

  lemma {:induction false} SentAmongJoins(replies: nat -> Reply, from: nat, a: nat, b: nat)
    ensures SentAmong(replies, from, a + b) == SentAmong(replies, from, a) + SentAmong(replies, from + a, b)
    decreases a
  {
    if a > 0 { SentAmongJoins(replies, from + 1, a - 1, b); }
  }

  ghost predicate CountsSent(d: Download, replies: nat -> Reply, from: nat) {
    d.requests == SentAmong(replies, from, d.fetches)
  }

  lemma CountsJoin(first: Download, rest: Download, replies: nat -> Reply, from: nat)
    requires CountsSent(first, replies, from)
    requires first.data.Some? ==> CountsSent(rest, replies, from + first.fetches)
    ensures CountsSent(if first.data.None? then first else Then(first, rest), replies, from)
  {
    SentAmongJoins(replies, from, first.fetches, rest.fetches);
  }

  lemma ObtainCounts(hash: Hash, blobs: Blobs, key: Bytes, replies: nat -> Reply, from: nat)
    ensures CountsSent(Obtain(hash, blobs, key, replies(from)), replies, from)
  {
    assert SentAmong(replies, from + 1, 0) == 0;
  }

  lemma NothingSent(hash: Hash, blobs: Blobs, replies: nat -> Reply, from: nat)
    ensures CountsSent(ObtainAll(hash, blobs, [], replies, from), replies, from)
  {
  }

  lemma {:induction false} ObtainAllCounts(hash: Hash, blobs: Blobs, keys: seq<Bytes>, replies: nat -> Reply, from: nat)
    ensures CountsSent(ObtainAll(hash, blobs, keys, replies, from), replies, from)
    decreases |keys|
  {
    hide *;
    if keys == [] {
      NothingSent(hash, blobs, replies, from);
      return;
    }
    ObtainAllUnfolds(hash, blobs, keys, replies, from);
    ObtainCounts(hash, blobs, keys[0], replies, from);
    var first := Obtain(hash, blobs, keys[0], replies(from));
    var rest := ObtainAll(hash, first.blobs, keys[1..], replies, from + first.fetches);
    if first.data.Some? { ObtainAllCounts(hash, first.blobs, keys[1..], replies, from + first.fetches); }
    CountsJoin(first, rest, replies, from);
  }

  /** The requests of a download are those of its fetches that got as far as sending one. */
  lemma RequestsAreCounted(hash: Hash, blobs: Blobs, metahash: Bytes, replies: nat -> Reply)
    ensures CountsSent(Downloaded(hash, blobs, metahash, replies), replies, 0)
  {
    hide Obtain, ObtainAll, Split;
    ObtainCounts(hash, blobs, metahash, replies, 0);
    var metafile := Obtain(hash, blobs, metahash, replies(0));
    if metafile.data.Some? {
      var keys := Split(metafile.data.value);
      ObtainAllCounts(hash, metafile.blobs, keys, replies, metafile.fetches);
      var rest := ObtainAll(hash, metafile.blobs, keys, replies, metafile.fetches);
      CountsJoin(metafile.(data := Some([])), rest, replies, 0);
    }
  }

  lemma UnfailingIff(hash: Hash, blobs: Blobs, metahash: Bytes, replies: nat -> Reply)
    ensures UnfailingFrom(Downloaded(hash, blobs, metahash, replies), replies, 0)
  {
    hide Obtain, ObtainAll, Split;
    ObtainUnfailingIff(hash, blobs, metahash, replies, 0);
    var metafile := Obtain(hash, blobs, metahash, replies(0));
    if metafile.data.Some? {
      var keys := Split(metafile.data.value);
      ObtainAllUnfailingIff(hash, metafile.blobs, keys, replies, metafile.fetches);
      var rest := ObtainAll(hash, metafile.blobs, keys, replies, metafile.fetches);
      UnfailingJoins(metafile.(data := Some([])), rest, replies, 0);
    }
  }

  /** A download that ends without an error, on any node and whatever peers reply, returns exactly the
      data whose upload gave that metahash if and only if no request failed or there was no data. */
  lemma DownloadIsGenuineIff(hash: Hash, blobs: Blobs, data: Bytes, size: nat, replies: nat -> Reply)
    requires IsHash(hash) && Sound(hash, blobs) && size > 0
    ensures var d := Downloaded(hash, blobs, Metahash(hash, data, size), replies);
      d.data.Some? ==> (d.data.value == data <==> data == [] || NoneFails(replies, 0, d.fetches))
  {
    var chunks := Chunks(data, size);
    var key := Metahash(hash, data, size);
    var metafile := Obtain(hash, blobs, key, replies(0));
    ObtainedIsGenuine(hash, blobs, key, replies(0));
    ChunksFacts(data, size);
    UnfailingIff(hash, blobs, key, replies);
    if metafile.data.Some? {
      if data != [] && metafile.unfailing {
        assert metafile.data.value == Metafile(hash, chunks);
        SplitJoin(Hashes(hash, chunks));
        ObtainAllWholeIff(hash, metafile.blobs, chunks, replies, metafile.fetches);
      } else {
        assert metafile.data.value == [];
        EmptyKeyIsNeverGenuine(hash, metafile.blobs, replies, metafile.fetches);
      }
    }
  }

  // ----- round trip on one node -----

  /** Every chunk is stored under its hash. */
  ghost predicate HasAll(hash: Hash, blobs: Blobs, chunks: seq<Bytes>) {
    forall i :: 0 <= i < |chunks| ==> hash(chunks[i]) in blobs && blobs[hash(chunks[i])] == chunks[i]
  }

  lemma {:induction false} StoreChunksHasAll(hash: Hash, blobs: Blobs, done: seq<Bytes>, chunks: seq<Bytes>)
    requires IsHash(hash) && HasAll(hash, blobs, done)
    ensures HasAll(hash, StoreChunks(hash, blobs, chunks), done + chunks)
    decreases |chunks|
  {
    if chunks == [] {
      assert done + chunks == done;
    } else {
      StoreChunksHasAll(hash, blobs[hash(chunks[0]) := chunks[0]], done + [chunks[0]], chunks[1..]);
      assert done + chunks == done + [chunks[0]] + chunks[1..];
    }
  }

  lemma {:induction false} ObtainAllStored(hash: Hash, blobs: Blobs, chunks: seq<Bytes>, replies: nat -> Reply,
      from: nat)
    requires HasAll(hash, blobs, chunks) && NoneEmpty(chunks)
    ensures ObtainAll(hash, blobs, Hashes(hash, chunks), replies, from) ==
              Download(blobs, Some(Concat(chunks)), 0, 0, true)
    decreases |chunks|
  {
    if chunks != [] {
      var keys := Hashes(hash, chunks);
      assert keys[0] == hash(chunks[0]) && keys[1..] == Hashes(hash, chunks[1..]);
      assert blobs[keys[0] := chunks[0]] == blobs;
      ObtainAllStored(hash, blobs, chunks[1..], replies, from);
    }
  }

  lemma {:induction false} UploadedHasAll(hash: Hash, blobs: Blobs, data: Bytes, size: nat)
    requires IsHash(hash) && size > 0
    ensures var stored := Uploaded(hash, blobs, data, size);
      && HasAll(hash, stored, Chunks(data, size))
      && HasAll(hash, stored, [Metafile(hash, Chunks(data, size))])
  {
    var chunks := Chunks(data, size);
    StoreChunksHasAll(hash, blobs, [], chunks);
    assert [] + chunks == chunks;
  }

  /** What was uploaded is downloaded again on the same node, without any request, whatever the store
      held before, and the store stays as it is. */
  lemma RoundTrip(hash: Hash, blobs: Blobs, data: Bytes, size: nat, replies: nat -> Reply)
    requires IsHash(hash) && size > 0 && data != []
    ensures var stored := Uploaded(hash, blobs, data, size);
      Downloaded(hash, stored, Metahash(hash, data, size), replies) == Download(stored, Some(data), 0, 0, true)
  {
    var chunks := Chunks(data, size);
    var hashes := Hashes(hash, chunks);
    var stored := Uploaded(hash, blobs, data, size);
    var metafile := Metafile(hash, chunks);
    ChunksFacts(data, size);
    UploadedHasAll(hash, blobs, data, size);
    assert metafile != [] by { assert hashes[0] == hash(chunks[0]); }
    assert Lookup(stored, hash(metafile)) == Some(metafile) by {
      assert [metafile][0] == metafile;
    }
    assert Split(metafile) == hashes by { SplitJoin(hashes); }
    assert stored[hash(metafile) := metafile] == stored;
    ObtainAllStored(hash, stored, chunks, replies, 0);
    assert [] + data == data;
  }

  /** A download right after the upload gives the data back without a request exactly when the data is
      not empty: the empty metafile of no data reads as nil, so it is asked for, and if nobody is known
      to have it that is an error. */
  lemma RoundTripNeedsData(hash: Hash, blobs: Blobs, data: Bytes, size: nat, replies: nat -> Reply)
    requires IsHash(hash) && size > 0
    ensures var stored := Uploaded(hash, blobs, data, size);
      Downloaded(hash, stored, Metahash(hash, data, size), replies) == Download(stored, Some(data), 0, 0, true)
      <==> data != []
  {
    if data == [] {
      assert Metafile(hash, Chunks(data, size)) == [];
    } else {
      RoundTrip(hash, blobs, data, size, replies);
    }
  }

  // ----- round trip between two nodes -----

  /** What a node that follows the protocol replies: what it stores, and nil is a failure. */
  function HonestReply(peer: Blobs, key: Bytes): Reply {
    match Lookup(peer, key)
    case Some(value) => Replied(value)
    case None => RequestFailed
  }

  /** Every fetch for one of the keys is answered from the store of one peer. */
  ghost predicate AnsweredFor(hash: Hash, blobs: Blobs, keys: seq<Bytes>, replies: nat -> Reply, from: nat, peer: Blobs)
    decreases |keys|
  {
    keys == [] ||
    var first := Obtain(hash, blobs, keys[0], replies(from));
    && (Lookup(blobs, keys[0]).None? ==> replies(from) == HonestReply(peer, keys[0]))
    && AnsweredFor(hash, first.blobs, keys[1..], replies, from + first.fetches, peer)
  }

  ghost predicate Answered(hash: Hash, blobs: Blobs, metahash: Bytes, replies: nat -> Reply, peer: Blobs) {
    var metafile := Obtain(hash, blobs, metahash, replies(0));
    && (Lookup(blobs, metahash).None? ==> replies(0) == HonestReply(peer, metahash))
    && (metafile.data.Some? ==>
          AnsweredFor(hash, metafile.blobs, Split(metafile.data.value), replies, metafile.fetches, peer))
  }

  /** With an honest answer a part is obtained and stored, whether it was there before or not. */
  lemma ObtainHonestly(hash: Hash, blobs: Blobs, part: Bytes, reply: Reply, peer: Blobs)
    requires IsHash(hash) && Sound(hash, blobs) && part != [] && HasAll(hash, peer, [part])
    requires Lookup(blobs, hash(part)).None? ==> reply == HonestReply(peer, hash(part))
    ensures var d := Obtain(hash, blobs, hash(part), reply);
      && d.blobs == blobs[hash(part) := part] && d.data == Some(part)
      && d.requests <= 1 && d.unfailing && Sound(hash, d.blobs)
  {
    assert [part][0] == part;
  }

  lemma AnsweredUnfolds(hash: Hash, blobs: Blobs, chunks: seq<Bytes>, replies: nat -> Reply, from: nat, peer: Blobs)
    requires chunks != [] && AnsweredFor(hash, blobs, Hashes(hash, chunks), replies, from, peer)
    ensures var first := Obtain(hash, blobs, hash(chunks[0]), replies(from));
      && (Lookup(blobs, hash(chunks[0])).None? ==> replies(from) == HonestReply(peer, hash(chunks[0])))
      && AnsweredFor(hash, first.blobs, Hashes(hash, chunks[1..]), replies, from + first.fetches, peer)
  {
    hide Obtain, HonestReply, Lookup;
    HashesUnfold(hash, chunks);
  }

  lemma HasAllParts(hash: Hash, blobs: Blobs, parts: seq<Bytes>)
    requires HasAll(hash, blobs, parts) && parts != []
    ensures HasAll(hash, blobs, [parts[0]]) && HasAll(hash, blobs, parts[1..])
  {
  }

  /** d holds all the chunks and has stored them, with at most one request for each. */
  ghost predicate GotAll(hash: Hash, blobs: Blobs, chunks: seq<Bytes>, d: Download) {
    && d.blobs == StoreChunks(hash, blobs, chunks) && d.data == Some(Concat(chunks))
    && d.requests <= |chunks| && d.unfailing
  }

  lemma NothingToGet(hash: Hash, blobs: Blobs, replies: nat -> Reply, from: nat)
    ensures GotAll(hash, blobs, [], ObtainAll(hash, blobs, Hashes(hash, []), replies, from))
  {
  }

  lemma GotAllJoins(hash: Hash, blobs: Blobs, chunks: seq<Bytes>, first: Download, rest: Download)
    requires chunks != [] && first.blobs == blobs[hash(chunks[0]) := chunks[0]] && first.data == Some(chunks[0])
    requires first.requests <= 1 && first.unfailing && GotAll(hash, first.blobs, chunks[1..], rest)
    ensures GotAll(hash, blobs, chunks, Then(first, rest))
  {
  }

  lemma {:induction false} ObtainAllHonestly(hash: Hash, blobs: Blobs, chunks: seq<Bytes>, replies: nat -> Reply,
      from: nat, peer: Blobs)
    requires IsHash(hash) && Sound(hash, blobs) && NoneEmpty(chunks) && HasAll(hash, peer, chunks)
    requires AnsweredFor(hash, blobs, Hashes(hash, chunks), replies, from, peer)
    ensures GotAll(hash, blobs, chunks, ObtainAll(hash, blobs, Hashes(hash, chunks), replies, from))
    decreases |chunks|
  {
    hide *;
    if chunks == [] {
      NothingToGet(hash, blobs, replies, from);
      return;
    }
    HeadNotEmpty(chunks);
    HashesUnfold(hash, chunks);
    HasAllParts(hash, peer, chunks);
    ObtainAllUnfolds(hash, blobs, Hashes(hash, chunks), replies, from);
    AnsweredUnfolds(hash, blobs, chunks, replies, from, peer);
    ObtainHonestly(hash, blobs, chunks[0], replies(from), peer);
    var first := Obtain(hash, blobs, hash(chunks[0]), replies(from));
    ObtainAllHonestly(hash, first.blobs, chunks[1..], replies, from + first.fetches, peer);
    var rest := ObtainAll(hash, first.blobs, Hashes(hash, chunks[1..]), replies, from + first.fetches);
    GotAllJoins(hash, blobs, chunks, first, rest);
  }

  lemma {:induction false} StoreMetafileFirst(hash: Hash, blobs: Blobs, chunks: seq<Bytes>, metafile: Bytes)
    requires IsHash(hash)
    ensures StoreChunks(hash, blobs[hash(metafile) := metafile], chunks) ==
            StoreChunks(hash, blobs, chunks)[hash(metafile) := metafile]
    decreases |chunks|
  {
    if chunks != [] {
      var key := hash(chunks[0]);
      assert blobs[hash(metafile) := metafile][key := chunks[0]] == blobs[key := chunks[0]][hash(metafile) := metafile];
      StoreMetafileFirst(hash, blobs[key := chunks[0]], chunks[1..], metafile);
    }
  }

  /** Data uploaded on one node is downloaded on any other that asks it: whatever that node held before,
      it gets exactly the data, with at most one request for the metafile and one for each chunk, and then
      holds what it would hold had it uploaded the data itself. */
  lemma TwoNodeRoundTrip(hash: Hash, blobs: Blobs, other: Blobs, data: Bytes, size: nat, replies: nat -> Reply)
    requires IsHash(hash) && Sound(hash, blobs) && size > 0 && data != []
    requires Answered(hash, blobs, Metahash(hash, data, size), replies, Uploaded(hash, other, data, size))
    ensures var d := Downloaded(hash, blobs, Metahash(hash, data, size), replies);
      && d.data == Some(data) && d.unfailing
      && d.requests <= 1 + |Chunks(data, size)|
      && d.blobs == Uploaded(hash, blobs, data, size)
  {
    var chunks, peer := Chunks(data, size), Uploaded(hash, other, data, size);
    var metafile := Metafile(hash, chunks);
    ChunksFacts(data, size);
    UploadedHasAll(hash, other, data, size);
    assert metafile != [] by { assert Hashes(hash, chunks)[0] == hash(chunks[0]); }
    SplitJoin(Hashes(hash, chunks));
    ObtainHonestly(hash, blobs, metafile, replies(0), peer);
    var first := Obtain(hash, blobs, hash(metafile), replies(0));
    ObtainAllHonestly(hash, first.blobs, chunks, replies, first.fetches, peer);
    StoreMetafileFirst(hash, blobs, chunks, metafile);
    assert [] + data == data;
  }
}
