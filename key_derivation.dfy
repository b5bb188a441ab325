/**
 * derive_key_aes and its completion callback: the per-inode key is the master key encrypted with
 * AES-128 in ECB mode under the 16-byte nonce of the inode's encryption context.
 */
module KeyDerivation {
  import opened Errno
  import opened FscryptConsts
  import opened CryptoApi

  /** ECB mode: every 16-byte block is encrypted on its own with the same key. */
  function Ecb(aes: (Block, Block) -> Block, key: Block, src: seq<byte>): (out: seq<byte>)
    requires |src| % 16 == 0
    ensures |out| == |src|
    decreases |src|
  {
    if |src| == 0 then [] else aes(key, src[..16]) + Ecb(aes, key, src[16..])
  }

  /** There is no chaining: the encryption of two aligned pieces is the two encryptions side by side. */
  lemma {:induction false} EcbSplit(aes: (Block, Block) -> Block, key: Block, a: seq<byte>, b: seq<byte>)
    requires |a| % 16 == 0 && |b| % 16 == 0
    ensures Ecb(aes, key, a + b) == Ecb(aes, key, a) + Ecb(aes, key, b)
    decreases |a|
  {
    if |a| == 0 {
      assert a + b == b;
    } else {
      assert (a + b)[..16] == a[..16];
      assert (a + b)[16..] == a[16..] + b;
      EcbSplit(aes, key, a[16..], b);
    }
  }

  /** Block i of the output is the encryption of block i of the input alone. */
  lemma {:induction false} EcbBlock(aes: (Block, Block) -> Block, key: Block, src: seq<byte>, i: nat)
    requires |src| % 16 == 0 && 16 * i + 16 <= |src|
    ensures Ecb(aes, key, src)[16 * i..16 * i + 16] == aes(key, src[16 * i..16 * i + 16])
    decreases i
  {
    if i > 0 {
      var rest := src[16..];
      var j := 16 * (i - 1);
      assert rest[j..j + 16] == src[16 * i..16 * i + 16];
      EcbBlock(aes, key, rest, i - 1);
      var head: seq<byte> := aes(key, src[..16]);
      var tail: seq<byte> := Ecb(aes, key, rest);
      assert Ecb(aes, key, src) == head + tail;
      assert (head + tail)[16 * i..16 * i + 16] == tail[j..j + 16];
    }
  }

  /** The code the completion finally carries: the first callback code that is not -EINPROGRESS. */
  function FinalStatus(callbacks: seq<Status>): (r: Status)
    requires exists i :: 0 <= i < |callbacks| && callbacks[i] != -EINPROGRESS
    ensures r != -EINPROGRESS
    ensures exists k :: 0 <= k < |callbacks| && callbacks[k] == r
                        && forall j :: 0 <= j < k ==> callbacks[j] == -EINPROGRESS
  {
    if callbacks[0] != -EINPROGRESS then callbacks[0]
    else
      assert exists i :: 0 <= i < |callbacks[1..]| && callbacks[1..][i] != -EINPROGRESS by {
        var i :| 0 <= i < |callbacks| && callbacks[i] != -EINPROGRESS;
        assert i > 0 && callbacks[1..][i - 1] == callbacks[i];
      }
      var r := FinalStatus(callbacks[1..]);
      assert exists k :: 0 <= k < |callbacks| && callbacks[k] == r
                         && forall j :: 0 <= j < k ==> callbacks[j] == -EINPROGRESS by {
        var k :| 0 <= k < |callbacks[1..]| && callbacks[1..][k] == r
                 && forall j :: 0 <= j < k ==> callbacks[1..][j] == -EINPROGRESS;
        assert callbacks[k + 1] == r;
        forall j | 0 <= j < k + 1 ensures callbacks[j] == -EINPROGRESS {
          if j > 0 { assert callbacks[j] == callbacks[1..][j - 1]; }
        }
      }
      r
  }

  /** The result derive_key_aes arrives at when its request can be allocated. */
  function DeriveResult(b: Backend, derivingKey: Block, source: seq<byte>): Status {
    var allocErr := b.allocStatus("ecb(aes)");
    if allocErr != 0 then allocErr
    else
      var setkeyErr := b.setkeyStatus("ecb(aes)", derivingKey);
      if setkeyErr != 0 then setkeyErr
      else
        var reply := b.encryptReply(derivingKey, source);
        if Async(reply.ret) then FinalStatus(reply.callbacks) else reply.ret
  }

  /** struct fscrypt_completion_result */
  class Completion {
    var res: int
    var done: bool

    constructor ()
      ensures res == 0 && !done
    {
      res, done := 0, false;
    }
  }

  /** derive_crypt_complete: -EINPROGRESS only reports progress and does not signal. */
  method DeriveCryptComplete(ecr: Completion, rc: Status)
    modifies ecr
    ensures rc == -EINPROGRESS ==> ecr.res == old(ecr.res) && ecr.done == old(ecr.done)
    ensures rc != -EINPROGRESS ==> ecr.res == rc && ecr.done
  {
    if rc == -EINPROGRESS {
      return;
    }
    ecr.res := rc;
    ecr.done := true;
  }

  /**
   * wait_for_completion while the backend delivers its callbacks: returns once the completion is
   * signalled, with the code the callback stored.
   */
  method WaitForCompletion(ecr: Completion, callbacks: seq<Status>)
    requires exists i :: 0 <= i < |callbacks| && callbacks[i] != -EINPROGRESS
    requires !ecr.done
    modifies ecr
    ensures ecr.done && ecr.res == FinalStatus(callbacks)
  {
    var i := 0;
    while !ecr.done
      invariant 0 <= i <= |callbacks|
      invariant forall j :: 0 <= j < i - 1 ==> callbacks[j] == -EINPROGRESS
      invariant !ecr.done ==> (forall j :: 0 <= j < i ==> callbacks[j] == -EINPROGRESS)
      invariant !ecr.done ==> exists k :: i <= k < |callbacks| && callbacks[k] != -EINPROGRESS
      invariant ecr.done ==> 0 < i && ecr.res == callbacks[i - 1] && callbacks[i - 1] != -EINPROGRESS
      decreases |callbacks| - i
    {
      DeriveCryptComplete(ecr, callbacks[i]);
      i := i + 1;
    }
    FirstFinalIsFinalStatus(callbacks, i - 1);
  }

  lemma {:induction false} FirstFinalIsFinalStatus(callbacks: seq<Status>, k: int)
    requires 0 <= k < |callbacks| && callbacks[k] != -EINPROGRESS
    requires forall j :: 0 <= j < k ==> callbacks[j] == -EINPROGRESS
    ensures FinalStatus(callbacks) == callbacks[k]
  {
    if k > 0 {
      assert callbacks[1..][k - 1] == callbacks[k];
      FirstFinalIsFinalStatus(callbacks[1..], k - 1);
    }
  }

  /**
   * derive_key_aes: encrypts the 64-byte source key with AES-128-ECB under the deriving key into
   * derived. The transform and the request are freed on every exit; an asynchronous request
   * returns the status its completion delivers.
   */
  method DeriveKeyAes(crypto: Crypto, derivingKey: Block, source: seq<byte>, derived: array<byte>)
      returns (res: Status)
    requires |source| == FS_AES_256_XTS_KEY_SIZE && derived.Length == FS_MAX_KEY_SIZE
    modifies crypto`liveTfms, crypto`liveReqs, derived
    ensures crypto.liveTfms == old(crypto.liveTfms) && crypto.liveReqs == old(crypto.liveReqs)
    ensures res == DeriveResult(crypto.backend, derivingKey, source)
            || (res == -ENOMEM && crypto.backend.allocStatus("ecb(aes)") == 0)
    ensures res == 0 ==> derived[..] == Ecb(crypto.backend.aes, derivingKey, source)
    ensures res != 0 ==> derived[..] == old(derived[..])
  {
    var tfm, err := crypto.AllocAblkcipher("ecb(aes)");
    if err != 0 {
      return err;
    }
    var reqOk := crypto.AllocRequest();
    if !reqOk {
      res := -ENOMEM;
    } else {
      var ecr := new Completion();
      res := crypto.SetKey(tfm, derivingKey);
      if res == 0 {
        var reply := crypto.backend.encryptReply(derivingKey, source);
        res := reply.ret;
        if Async(res) {
          WaitForCompletion(ecr, reply.callbacks);
          res := ecr.res;
        }
        if res == 0 {
          var out := Ecb(crypto.backend.aes, derivingKey, source);
          forall i | 0 <= i < FS_MAX_KEY_SIZE {
            derived[i] := out[i];
          }
        }
      }
      crypto.FreeRequest();
    }
    crypto.FreeAblkcipher(tfm);
  }
}
