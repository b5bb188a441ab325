/**
 * The kernel asynchronous block-cipher interface used by keyinfo.c, with the cipher algorithms
 * themselves replaced by an opaque, deterministic backend.
 */
module CryptoApi {
  import opened Errno
  import opened FscryptConsts

  /** An encrypt request was queued (-EINPROGRESS) or backlogged (-EBUSY). */
  predicate Async(ret: int) {
    ret == -EINPROGRESS || ret == -EBUSY
  }

  /**
   * What crypto_ablkcipher_encrypt does with one request: its return value and, when it went
   * asynchronous, the codes later passed to the completion callback in order.
   */
  datatype Reply = Reply(ret: Status, callbacks: seq<Status>)

  /** An asynchronous request is eventually completed with a code other than -EINPROGRESS. */
  predicate Delivers(r: Reply) {
    Async(r.ret) ==> exists i :: 0 <= i < |r.callbacks| && r.callbacks[i] != -EINPROGRESS
  }

  type EncryptReply = r: Reply | Delivers(r) witness Reply(0, [])

  /**
   * The cipher implementations: whether a transform of a given name can be allocated, whether a
   * key is accepted, how an encryption request completes, and the AES-128 block function.
   */
  datatype Backend = Backend(
    allocStatus: string -> Status,
    setkeyStatus: (string, seq<byte>) -> Status,
    encryptReply: (seq<byte>, seq<byte>) -> EncryptReply,
    aes: (Block, Block) -> Block)

  /** A crypto_ablkcipher transform. */
  class Tfm {
    const name: string
    var key: seq<byte>
    var live: bool

    constructor (name: string)
      ensures this.name == name && key == [] && live
    {
      this.name := name;
      key := [];
      live := true;
    }
  }

  /** The allocator of transforms and requests, counting what is currently allocated. */
  class Crypto {
    const backend: Backend
    var liveTfms: int
    var liveReqs: int

    constructor (backend: Backend)
      ensures this.backend == backend && liveTfms == 0 && liveReqs == 0
    {
      this.backend := backend;
      liveTfms, liveReqs := 0, 0;
    }

    /** crypto_alloc_ablkcipher(name, 0, 0); an error pointer is returned as err. */
    method AllocAblkcipher(name: string) returns (t: Tfm?, err: Status)
      modifies this`liveTfms
      ensures err == backend.allocStatus(name)
      ensures err == 0 ==> t != null && fresh(t) && t.name == name && t.key == [] && t.live
      ensures err == 0 ==> liveTfms == old(liveTfms) + 1
      ensures err != 0 ==> t == null && liveTfms == old(liveTfms)
    {
      err := backend.allocStatus(name);
      if err == 0 {
        t := new Tfm(name);
        liveTfms := liveTfms + 1;
      } else {
        t := null;
      }
    }

    /** crypto_free_ablkcipher: every transform is freed once. */
    method FreeAblkcipher(t: Tfm)
      requires t.live
      modifies this`liveTfms, t`live
      ensures !t.live && liveTfms == old(liveTfms) - 1
    {
      t.live := false;
      liveTfms := liveTfms - 1;
    }

    /** crypto_ablkcipher_setkey */
    method SetKey(t: Tfm, key: seq<byte>) returns (res: Status)
      modifies t`key
      ensures res == backend.setkeyStatus(t.name, key)
      ensures t.key == if res == 0 then key else old(t.key)
    {
      res := backend.setkeyStatus(t.name, key);
      if res == 0 {
        t.key := key;
      }
    }

    /** ablkcipher_request_alloc(tfm, GFP_NOFS), which may fail for lack of memory. */
    method AllocRequest() returns (ok: bool)
      modifies this`liveReqs
      ensures liveReqs == old(liveReqs) + if ok then 1 else 0
    {
      ok := *;
      if ok {
        liveReqs := liveReqs + 1;
      }
    }

    /** ablkcipher_request_free */
    method FreeRequest()
      modifies this`liveReqs
      ensures liveReqs == old(liveReqs) - 1
    {
      liveReqs := liveReqs - 1;
    }
  }
}
