/** The in-memory store and the sharing part of a node: objects proved to compute what the functions
    of module Sharing say. */
module SharingNodes {
  import opened Prelude
  import S = Sharing

  class Store {
    var data: S.Blobs

    constructor ()
      ensures data == map[]
    {
      data := map[];
    }

    method Get(key: Bytes) returns (val: Option<Bytes>)
      ensures val == S.Lookup(data, key)
    {
      var copy: Bytes := if key in data then data[key] else [];
      val := if copy == [] then None else Some(copy);
    }

    /** Storing nil stores an empty value. */
    method Set(key: Bytes, val: Option<Bytes>)
      modifies this
      ensures data == old(data)[key := S.Value(val)]
    {
      data := data[key := if val.Some? then val.value else []];
    }
  }

  class SharingNode {
    const hash: S.Hash
    const chunkSize: nat
    const blobStore: Store

    constructor (hash: S.Hash, chunkSize: nat)
      ensures this.hash == hash && this.chunkSize == chunkSize
      ensures fresh(blobStore) && blobStore.data == map[]
    {
      this.hash, this.chunkSize := hash, chunkSize;
      blobStore := new Store();
    }

    /** Stores each chunk under its hash and the metafile under its own; refuses a chunk size of 0. */
    method Upload(data: Bytes) returns (metahash: Option<Bytes>)
      requires |data| <= S.INT_MAX && S.LastEndFits(|data|, chunkSize)
      modifies blobStore
      ensures if chunkSize == 0 then metahash == None && blobStore.data == old(blobStore.data)
              else metahash == Some(S.Metahash(hash, data, chunkSize)) &&
                   blobStore.data == S.Uploaded(hash, old(blobStore.data), data, chunkSize)
    {
      if chunkSize == 0 { return None; }
      var chunks := S.SplitIntoChunks(data, chunkSize);
      var chunkHashes := [];
      for i := 0 to |chunks|
        invariant S.StoreChunks(hash, old(blobStore.data), chunks) == S.StoreChunks(hash, blobStore.data, chunks[i..])
        invariant chunkHashes == S.Hashes(hash, chunks[..i])
      {
        assert chunks[i..][1..] == chunks[i + 1..] && chunks[..i + 1] == chunks[..i] + [chunks[i]];
        var chunkHash := hash(chunks[i]);
        chunkHashes := chunkHashes + [chunkHash];
        blobStore.Set(chunkHash, Some(chunks[i]));
      }
      assert chunks[..|chunks|] == chunks;
      var metafile := S.Join(chunkHashes);
      metahash := Some(hash(metafile));
      blobStore.Set(metahash.value, Some(metafile));
    }

    /** Asks one peer; what it replies must hash to the key. */
    method FetchWithBackOff(key: Bytes, reply: S.Reply) returns (result: S.Fetch, requests: nat)
      ensures result == S.FetchResult(hash, key, reply) && requests == S.Requests(reply)
    {
      if reply.NoPeers? { return S.Failed, 0; }
      result, requests := S.Nothing, if reply.NotSent? then 0 else 1;
      if reply.Replied? {
        if hash(reply.value) != key { return S.Failed, requests; }
        result := S.Fetched(reply.value);
      }
    }

    /** Reads a key from the store or fetches it, and stores what it got. */
    method Obtain(key: Bytes, reply: S.Reply)
      returns (data: Option<Bytes>, fetches: nat, requests: nat, ghost unfailing: bool)
      modifies blobStore
      ensures S.Download(blobStore.data, data, fetches, requests, unfailing) ==
                S.Obtain(hash, old(blobStore.data), key, reply)
    {
      var value := blobStore.Get(key);
      fetches, requests, unfailing := 0, 0, true;
      if value == None {
        var fetch;
        fetch, requests := FetchWithBackOff(key, reply);
        fetches, unfailing := 1, fetch != S.Nothing;
        if fetch == S.Failed { return None, fetches, requests, true; }
        value := if fetch.Fetched? then Some(fetch.value) else None;
      }
      blobStore.Set(key, value);
      data := Some(S.Value(value));
    }

    /** The metafile first, then each chunk it lists; replies(k) is what becomes of fetch number k. */
    method Download(metahash: Bytes, replies: nat -> S.Reply)
      returns (data: Option<Bytes>, fetches: nat, requests: nat, ghost unfailing: bool)
      modifies blobStore
      ensures S.Download(blobStore.data, data, fetches, requests, unfailing) ==
                S.Downloaded(hash, old(blobStore.data), metahash, replies)
    {
      hide S.Split, S.Obtain, S.ObtainAll, S.Then;
      ghost var blobs := blobStore.data;
      var metafile;
      metafile, fetches, requests, unfailing := Obtain(metahash, replies(0));
      if metafile == None { return None, fetches, requests, unfailing; }
      var chunkHashes := S.Split(metafile.value);
      ghost var whole := S.Downloaded(hash, blobs, metahash, replies);
      var fileData: Bytes := [];
      for i := 0 to |chunkHashes|
        invariant whole == S.Then(S.Download(blobStore.data, Some(fileData), fetches, requests, unfailing),
                                  S.ObtainAll(hash, blobStore.data, chunkHashes[i..], replies, fetches))
      {
        ObtainNext(S.Download(blobStore.data, Some(fileData), fetches, requests, unfailing), chunkHashes, i, replies);
        var chunk, tried, sent, ok := Obtain(chunkHashes[i], replies(fetches));
        fetches, requests, unfailing := fetches + tried, requests + sent, unfailing && ok;
        if chunk == None { return None, fetches, requests, unfailing; }
        fileData := fileData + chunk.value;
      }
      ghost var sofar := S.Download(blobStore.data, Some(fileData), fetches, requests, unfailing);
      NothingLeft(sofar, chunkHashes[|chunkHashes|..], replies);
      data := Some(fileData);
    }

    /** One round of the loop: the chunk is added to what there is, or its error ends the download. */
    lemma {:induction false} ObtainNext(sofar: S.Download, keys: seq<Bytes>, i: nat, replies: nat -> S.Reply)
      requires i < |keys| && sofar.data.Some?
      ensures var all := S.Then(sofar, S.ObtainAll(hash, sofar.blobs, keys[i..], replies, sofar.fetches));
        var got := S.Obtain(hash, sofar.blobs, keys[i], replies(sofar.fetches));
        var next := Extended(sofar, got);
        all == if got.data.None? then next
               else S.Then(next, S.ObtainAll(hash, got.blobs, keys[i + 1..], replies, next.fetches))
    {
      hide S.Obtain, S.ObtainAll, S.Then;
      OneKey(sofar.blobs, keys, i, replies, sofar.fetches);
      var got := S.Obtain(hash, sofar.blobs, keys[i], replies(sofar.fetches));
      if got.data.None? {
        ThenError(sofar, got);
      } else {
        ThenData(sofar, got, S.ObtainAll(hash, got.blobs, keys[i + 1..], replies, sofar.fetches + got.fetches));
      }
    }

    /** The download so far with one more chunk, or ended by the error of it. */
    static function Extended(sofar: S.Download, got: S.Download): S.Download {
      S.Download(got.blobs,
                 if got.data.Some? then Some(S.Value(sofar.data) + got.data.value) else None,
                 sofar.fetches + got.fetches,
                 sofar.requests + got.requests,
                 sofar.unfailing && got.unfailing)
    }

    lemma {:induction false} OneKey(blobs: S.Blobs, keys: seq<Bytes>, i: nat, replies: nat -> S.Reply, from: nat)
      requires i < |keys|
      ensures var got := S.Obtain(hash, blobs, keys[i], replies(from));
        S.ObtainAll(hash, blobs, keys[i..], replies, from) ==
          if got.data.None? then got
          else S.Then(got, S.ObtainAll(hash, got.blobs, keys[i + 1..], replies, from + got.fetches))
    {
      hide S.Obtain, S.Then;
      assert keys[i..][0] == keys[i] && keys[i..][1..] == keys[i + 1..];
    }

    static lemma ThenError(sofar: S.Download, got: S.Download)
      requires got.data.None?
      ensures S.Then(sofar, got) == Extended(sofar, got)
    {
    }

    static lemma ThenData(sofar: S.Download, got: S.Download, rest: S.Download)
      requires sofar.data.Some? && got.data.Some?
      ensures S.Then(sofar, S.Then(got, rest)) == S.Then(Extended(sofar, got), rest)
    {
      var a, b, c := sofar.data.value, got.data.value, S.Value(rest.data);
      assert a + (b + c) == (a + b) + c;
    }

    lemma {:induction false} NothingLeft(sofar: S.Download, keys: seq<Bytes>, replies: nat -> S.Reply)
      requires keys == [] && sofar.data.Some?
      ensures S.Then(sofar, S.ObtainAll(hash, sofar.blobs, keys, replies, sofar.fetches)) == sofar
    {
      assert sofar.data.value + [] == sofar.data.value;
    }
  }
}
