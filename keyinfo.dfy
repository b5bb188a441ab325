/**
 * fs/crypto/keyinfo.c: resolving an inode's master key through the keyring, deriving the per-inode
 * key, and caching the resulting fscrypt_info in the inode's i_crypt_info slot.
 */
module KeyInfo {
  import opened Errno
  import opened FscryptConsts
  import opened CryptoApi
  import opened Keyring
  import opened KeyDescription
  import opened KeyDerivation
  import opened KeyInfoTypes

  // ---------------------------------------------------------------------------------------------
  // Decisions of fscrypt_get_crypt_info that depend on values only

  datatype ContextChoice = UseContext(ctx: Context) | ContextError(code: int)

  /**
   * The s_cop->get_context step of fscrypt_get_crypt_info: the context read from the inode is used
   * when it was read in full; when it could not be read, the dummy context replaces it only in dummy
   * mode for an inode that is not marked encrypted; otherwise the read error, or -EINVAL for a short
   * read, is returned.
   */
  function ChooseContext(read: ContextRead, dummy: bool, encrypted: bool): (r: ContextChoice)
    ensures r.UseContext? ==> (read.res == FSCRYPT_CONTEXT_SIZE && r.ctx == read.ctx)
                              || (read.res < 0 && dummy && !encrypted && r.ctx == DummyContext)
    ensures r.ContextError? ==> (read.res < 0 && r.code == read.res && (!dummy || encrypted))
                                || (0 <= read.res != FSCRYPT_CONTEXT_SIZE && r.code == -EINVAL)
  {
    if read.res < 0 then
      if !dummy || encrypted then ContextError(read.res) else UseContext(DummyContext)
    else if read.res != FSCRYPT_CONTEXT_SIZE then ContextError(-EINVAL)
    else UseContext(read.ctx)
  }

  /**
   * The S_ISREG / S_ISDIR / S_ISLNK test of fscrypt_get_crypt_info: regular files are encrypted with
   * the contents mode, directories and symlinks with the file-name mode; any other kind of inode is
   * a kernel BUG (None).
   */
  function SelectMode(kind: FileKind, ctx: Context): (m: Option<int>)
    ensures m.None? <==> kind == OtherKind
    ensures kind == Regular ==> m == Some(ctx.contentsMode)
    ensures kind == Directory || kind == Symlink ==> m == Some(ctx.filenamesMode)
  {
    match kind
    case Regular => Some(ctx.contentsMode)
    case Directory => Some(ctx.filenamesMode)
    case Symlink => Some(ctx.filenamesMode)
    case OtherKind => None
  }

  /**
   * The switch on the mode: the crypto API algorithm of the two supported encryption modes; None,
   * for any other mode, stands for the -ENOKEY of the default case.
   */
  function CipherName(mode: int): (name: Option<string>)
    ensures name.Some? <==> mode == FS_ENCRYPTION_MODE_AES_256_XTS || mode == FS_ENCRYPTION_MODE_AES_256_CTS
    ensures mode == FS_ENCRYPTION_MODE_AES_256_XTS ==> name == Some("xts(aes)")
    ensures mode == FS_ENCRYPTION_MODE_AES_256_CTS ==> name == Some("cts(cbc(aes))")
  {
    if mode == FS_ENCRYPTION_MODE_AES_256_XTS then Some("xts(aes)")
    else if mode == FS_ENCRYPTION_MODE_AES_256_CTS then Some("cts(cbc(aes))")
    else None
  }

  /**
   * fscrypt_key_size(mode), the key length given to crypto_ablkcipher_setkey: the AES-256-XTS and
   * AES-256-CTS key sizes, so positive and within the raw-key buffer exactly for the modes that
   * have a cipher.
   */
  function KeySize(mode: int): (n: int)
    ensures mode == FS_ENCRYPTION_MODE_AES_256_XTS ==> n == FS_AES_256_XTS_KEY_SIZE
    ensures mode == FS_ENCRYPTION_MODE_AES_256_CTS ==> n == FS_AES_256_CTS_KEY_SIZE
    ensures n > 0 <==> CipherName(mode).Some?
    ensures 0 <= n <= FS_MAX_KEY_SIZE
  {
    if mode == FS_ENCRYPTION_MODE_AES_256_XTS then FS_AES_256_XTS_KEY_SIZE
    else if mode == FS_ENCRYPTION_MODE_AES_256_CTS then FS_AES_256_CTS_KEY_SIZE
    else 0
  }

  /**
   * The two validate_user_key calls of fscrypt_get_crypt_info: the status after trying the default
   * prefix (first) and, only if that failed and the filesystem has a key_prefix, the filesystem
   * prefix (second). 0 means a key was found and setup continues. When both fail, -ENOKEY from the
   * second attempt wins over the first error; any other second error leaves the first one.
   */
  function PrefixFallback(first: int, second: Option<int>): (r: int)
    requires second.Some? ==> first != 0
    ensures r == 0 <==> first == 0 || second == Some(0)
    ensures first != 0 && second.None? ==> r == first
    ensures second.Some? && second.value != 0 ==> r == (if second.value == -ENOKEY then -ENOKEY else first)
  {
    if first == 0 then 0
    else if second.None? then first
    else if second.value == 0 then 0
    else if second.value == -ENOKEY then -ENOKEY
    else first
  }

  /** The out label: -ENOKEY ("no usable key") becomes success, every other status is returned. */
  function ExitStatus(res: int): (r: int)
    ensures r != -ENOKEY
    ensures r == 0 <==> res == 0 || res == -ENOKEY
    ensures res != -ENOKEY ==> r == res
  {
    if res == -ENOKEY then 0 else res
  }

  /**
   * What validate_user_key returns when neither of its memory allocations fails: -ENOKEY for a
   * description that is not in the keyring, the keyring search's error for a key it does not
   * return, the first failing check of the key, or the status of the key derivation.
   */
  ghost function Verdict(keyring: map<string, Key>, prefix: string, ctx: Context, b: Backend): int {
    var d := Description(prefix, ctx.descriptor);
    if d !in keyring then -ENOKEY
    else if SearchResult(keyring[d]) != 0 then SearchResult(keyring[d])
    else if KeyCheck(keyring[d]) != 0 then KeyCheck(keyring[d])
    else DeriveResult(b, ctx.nonce, MasterRaw(keyring[d].payload))
  }

  // ---------------------------------------------------------------------------------------------
  // validate_user_key, put_crypt_info, fscrypt_put_encryption_info

  /**
   * validate_user_key: looks the master key up under prefix + hex(descriptor), checks it and derives
   * the inode's raw key from it. On success the key reference is kept in ci_keyring_key; every
   * failure after the lookup drops it; the payload read-lock is released on every path that took it.
   */
  method ValidateUserKey(ci: CryptInfo, ctx: Context, rawKey: array<byte>, prefix: string,
                         keyring: map<string, Key>, crypto: Crypto) returns (res: int)
    requires rawKey.Length == FS_MAX_KEY_SIZE
    modifies ci`keyringKey, rawKey, crypto`liveTfms, crypto`liveReqs, keyring.Values
    ensures crypto.liveTfms == old(crypto.liveTfms) && crypto.liveReqs == old(crypto.liveReqs)
    ensures res <= 0
    ensures res == -ENOMEM || res == Verdict(keyring, prefix, ctx, crypto.backend)
    ensures res == 0 ==> Description(prefix, ctx.descriptor) in keyring
                         && ci.keyringKey == keyring[Description(prefix, ctx.descriptor)]
                         && KeyCheck(ci.keyringKey) == 0
                         && rawKey[..] == Ecb(crypto.backend.aes, ctx.nonce, MasterRaw(ci.keyringKey.payload))
    ensures res == 0 ==> KeysMoved(keyring.Values, ci.keyringKey, null)
    ensures res != 0 ==> ci.keyringKey == old(ci.keyringKey) && rawKey[..] == old(rawKey[..])
                         && KeysMoved(keyring.Values, null, null)
  {
    var descriptionAllocated := *;
    if !descriptionAllocated {
      return -ENOMEM;
    }
    var description := BuildDescription(prefix, ctx.descriptor);
    assert description[..description.Length - 1] == Description(prefix, ctx.descriptor);
    var lookup := RequestKey(keyring, description[..description.Length - 1]);
    if lookup.LookupError? {
      return lookup.err;
    }
    var k := lookup.key;
    res := CheckAndDerive(k, ctx, rawKey, crypto);
    if res == 0 {
      ci.keyringKey := k;
      return 0;
    }
    KeyPut(k);
  }

  /**
   * validate_user_key on the key request_key returned: its type, payload length and master key
   * size are checked, under the payload read-lock once the type is right, and the raw key is derived
   * from the master key.
   */
  method CheckAndDerive(k: Key, ctx: Context, rawKey: array<byte>, crypto: Crypto) returns (res: int)
    requires rawKey.Length == FS_MAX_KEY_SIZE
    modifies k`readers, rawKey, crypto`liveTfms, crypto`liveReqs
    ensures crypto.liveTfms == old(crypto.liveTfms) && crypto.liveReqs == old(crypto.liveReqs)
    ensures k.readers == old(k.readers)
    ensures res <= 0
    ensures KeyCheck(k) != 0 ==> res == KeyCheck(k)
    ensures KeyCheck(k) == 0 ==> res == DeriveResult(crypto.backend, ctx.nonce, MasterRaw(k.payload))
                                 || (res == -ENOMEM && crypto.backend.allocStatus("ecb(aes)") == 0)
    ensures res == 0 ==> KeyCheck(k) == 0 && rawKey[..] == Ecb(crypto.backend.aes, ctx.nonce, MasterRaw(k.payload))
    ensures res != 0 ==> rawKey[..] == old(rawKey[..])
  {
    if !k.isLogon {
      return -ENOKEY;
    }
    DownRead(k);
    if |k.payload| != FSCRYPT_KEY_PAYLOAD_SIZE {
      res := -EINVAL;
    } else if MasterSize(k.payload) != FS_AES_256_XTS_KEY_SIZE {
      res := -ENOKEY;
    } else {
      res := DeriveKeyAes(crypto, ctx.nonce, MasterRaw(k.payload), rawKey);
    }
    UpRead(k);
  }

  /** put_crypt_info: nothing for NULL; otherwise the keyring reference, the transform, the record. */
  method PutCryptInfo(ci: CryptInfo?, crypto: Crypto)
    requires ci != null ==> ci.live && (ci.ctfm != null ==> ci.ctfm.live)
    modifies crypto`liveTfms, Footprint(ci)
    ensures ci == null ==> crypto.liveTfms == old(crypto.liveTfms)
    ensures ci != null ==> Destroyed(ci, crypto)
  {
    if ci == null {
      return;
    }
    if ci.keyringKey != null {
      KeyPut(ci.keyringKey);
    }
    if ci.ctfm != null {
      crypto.FreeAblkcipher(ci.ctfm);
    }
    ci.live := false;
  }

  /**
   * fscrypt_put_encryption_info: clears the slot with a compare-and-swap and destroys the record
   * only if the slot still held it (ci, or whatever the slot holds when ci is NULL). Called again
   * with the same record, it finds the slot changed and does nothing.
   */
  method PutEncryptionInfo(inode: Inode, ci: CryptInfo?, crypto: Crypto)
    requires inode.Valid()
    modifies inode`cryptInfo, crypto`liveTfms, Footprint(inode.cryptInfo)
    ensures inode.Valid()
    ensures var target := if ci == null then old(inode.cryptInfo) else ci;
            if target != null && target == old(inode.cryptInfo)
            then inode.cryptInfo == null && Destroyed(target, crypto)
            else inode.cryptInfo == old(inode.cryptInfo) && crypto.liveTfms == old(crypto.liveTfms)
                 && unchanged(old(Footprint(inode.cryptInfo)))
  {
    var target := ci;
    if target == null {
      target := inode.cryptInfo;
    }
    if target == null {
      return;
    }
    var prev := inode.Cmpxchg(target, null);
    if prev != target {
      return;
    }
    PutCryptInfo(target, crypto);
  }

  // ---------------------------------------------------------------------------------------------
  // fscrypt_get_crypt_info: resolving the raw key and keying the cipher

  /** n copies of the byte v. */
  function Fill(v: byte, n: nat): (s: seq<byte>)
    ensures |s| == n && forall i :: 0 <= i < n ==> s[i] == v
  {
    if n == 0 then [] else Fill(v, n - 1) + [v]
  }

  /** The raw key of dummy-encryption mode: FS_AES_256_XTS_KEY_SIZE bytes of 0x42. */
  const DummyRawKey: seq<byte> := Fill(0x42, FS_AES_256_XTS_KEY_SIZE)

  /** kzfree: the secret is overwritten with zeros before the buffer is released. */
  method Kzfree(buf: array?<byte>)
    modifies buf
    ensures buf != null ==> forall i :: 0 <= i < buf.Length ==> buf[i] == 0
  {
    if buf != null {
      forall i | 0 <= i < buf.Length {
        buf[i] := 0;
      }
    }
  }

  /**
   * What the two validate_user_key calls may have returned (nothing is looked up in dummy mode):
   * each is -ENOMEM or the verdict on the key under its prefix, and the second call is made exactly
   * when the first failed and the filesystem has a key_prefix.
   */
  ghost predicate Resolution(dummy: bool, ctx: Context, keyPrefix: Option<string>, keyring: map<string, Key>,
                             b: Backend, first: int, second: Option<int>) {
    !dummy ==>
      && (first == -ENOMEM || first == Verdict(keyring, FS_KEY_DESC_PREFIX, ctx, b))
      && (second.Some? <==> first != 0 && keyPrefix.Some?)
      && (second.Some? ==> second.value == -ENOMEM || second.value == Verdict(keyring, keyPrefix.value, ctx, b))
  }

  /** The description of the key that was used: the default prefix's unless that lookup failed. */
  function UsedDescription(ctx: Context, keyPrefix: Option<string>, first: int): string {
    if first == 0 || keyPrefix.None? then Description(FS_KEY_DESC_PREFIX, ctx.descriptor)
    else Description(keyPrefix.value, ctx.descriptor)
  }

  /** The raw key of a resolution that succeeded: the dummy pattern, or derived from the key used. */
  ghost function ResolvedKey(dummy: bool, ctx: Context, keyPrefix: Option<string>, keyring: map<string, Key>,
                             b: Backend, first: int): (k: seq<byte>)
    requires !dummy ==> UsedDescription(ctx, keyPrefix, first) in keyring
                        && KeyCheck(keyring[UsedDescription(ctx, keyPrefix, first)]) == 0
    ensures |k| == FS_MAX_KEY_SIZE
  {
    if dummy then DummyRawKey
    else Ecb(b.aes, ctx.nonce, MasterRaw(keyring[UsedDescription(ctx, keyPrefix, first)].payload))
  }

  /**
   * The status of crypto_alloc_ablkcipher followed by crypto_ablkcipher_setkey: the allocation
   * error, else the setkey status.
   */
  function SetupStatus(b: Backend, cipher: string, key: seq<byte>): Status {
    if b.allocStatus(cipher) != 0 then b.allocStatus(cipher) else b.setkeyStatus(cipher, key)
  }

  /**
   * The status keying a record ends with once its raw-key buffer exists: the failure of the key
   * resolution, or else the status of setting the first fscrypt_key_size(mode) bytes of the
   * resolved raw key on a transform of the mode's cipher.
   */
  ghost function BuildStatus(mode: int, dummy: bool, ctx: Context, keyPrefix: Option<string>,
                             keyring: map<string, Key>, b: Backend, first: int, second: Option<int>): int
    requires CipherName(mode).Some? && Resolution(dummy, ctx, keyPrefix, keyring, b, first, second)
  {
    if !dummy && PrefixFallback(first, second) != 0 then PrefixFallback(first, second)
    else SetupStatus(b, CipherName(mode).value, ResolvedKey(dummy, ctx, keyPrefix, keyring, b, first)[..KeySize(mode)])
  }

  /**
   * The status the keying of a record ends with: -ENOKEY for a mode without a cipher, -ENOMEM when
   * the raw-key buffer cannot be allocated, and otherwise BuildStatus.
   */
  ghost predicate KeyingStatus(res: int, keyAllocated: bool, mode: int, dummy: bool, ctx: Context,
                               keyPrefix: Option<string>, keyring: map<string, Key>, b: Backend,
                               first: int, second: Option<int>) {
    if CipherName(mode).None? then res == -ENOKEY && !keyAllocated
    else if !keyAllocated then res == -ENOMEM
    else Resolution(dummy, ctx, keyPrefix, keyring, b, first, second)
         && res == BuildStatus(mode, dummy, ctx, keyPrefix, keyring, b, first, second)
  }

  /**
   * The raw key is the dummy pattern in dummy mode; otherwise it is resolved through the keyring
   * with the default prefix and, if that fails and the filesystem has one, with the filesystem's
   * key_prefix. first and second are what the two validate_user_key calls returned.
   */
  method ResolveRawKey(ci: CryptInfo, ctx: Context, rawKey: array<byte>, dummy: bool,
                       keyPrefix: Option<string>, keyring: map<string, Key>, crypto: Crypto)
      returns (res: int, ghost first: int, ghost second: Option<int>)
    requires rawKey.Length == FS_MAX_KEY_SIZE && ci.keyringKey == null
    modifies ci`keyringKey, rawKey, crypto`liveTfms, crypto`liveReqs, keyring.Values
    ensures crypto.liveTfms == old(crypto.liveTfms) && crypto.liveReqs == old(crypto.liveReqs)
    ensures dummy ==> res == 0 && ci.keyringKey == null && rawKey[..] == DummyRawKey
                      && KeysMoved(keyring.Values, null, null)
    ensures Resolution(dummy, ctx, keyPrefix, keyring, crypto.backend, first, second)
    ensures !dummy ==> res == PrefixFallback(first, second)
    ensures !dummy && res == 0 ==>
              && UsedDescription(ctx, keyPrefix, first) in keyring
              && ci.keyringKey == keyring[UsedDescription(ctx, keyPrefix, first)]
              && KeyCheck(ci.keyringKey) == 0
              && rawKey[..] == Ecb(crypto.backend.aes, ctx.nonce, MasterRaw(ci.keyringKey.payload))
              && FoundUnder(ci.keyringKey, keyring, ctx, keyPrefix)
              && KeysMoved(keyring.Values, ci.keyringKey, null)
    ensures res != 0 ==> ci.keyringKey == null && KeysMoved(keyring.Values, null, null)
  {
    if dummy {
      forall i | 0 <= i < FS_AES_256_XTS_KEY_SIZE {
        rawKey[i] := 0x42;
      }
      return 0, 0, None;
    }
    res := ValidateUserKey(ci, ctx, rawKey, FS_KEY_DESC_PREFIX, keyring, crypto);
    first, second := res, None;
    if res != 0 && keyPrefix.Some? {
      var res2 := ValidateUserKey(ci, ctx, rawKey, keyPrefix.value, keyring, crypto);
      second := Some(res2);
      if res2 != 0 {
        if res2 == -ENOKEY {
          res := -ENOKEY;
        }
        return;
      }
      res := 0;
    }
  }

  /** The key was found under the default prefix or under the filesystem's key_prefix. */
  ghost predicate FoundUnder(k: Key, keyring: map<string, Key>, ctx: Context, keyPrefix: Option<string>) {
    || (Description(FS_KEY_DESC_PREFIX, ctx.descriptor) in keyring
        && k == keyring[Description(FS_KEY_DESC_PREFIX, ctx.descriptor)])
    || (keyPrefix.Some? && Description(keyPrefix.value, ctx.descriptor) in keyring
        && k == keyring[Description(keyPrefix.value, ctx.descriptor)])
  }

  /**
   * crypto_alloc_ablkcipher for the mode's cipher, then crypto_ablkcipher_setkey with the first
   * keySize bytes of the raw key. The status is the allocation error, else the setkey status; the
   * transform, once allocated, stays in the record.
   */
  method SetupCipher(ci: CryptInfo, cipherStr: string, rawKey: array<byte>, keySize: int, crypto: Crypto)
      returns (res: int)
    requires ci.ctfm == null && 0 < keySize <= rawKey.Length
    modifies ci`ctfm, crypto`liveTfms
    ensures res == SetupStatus(crypto.backend, cipherStr, rawKey[..keySize])
    ensures (ci.ctfm == null) == (crypto.backend.allocStatus(cipherStr) != 0)
    ensures ci.ctfm == null ==> crypto.liveTfms == old(crypto.liveTfms)
    ensures ci.ctfm != null ==> fresh(ci.ctfm) && ci.ctfm.live && ci.ctfm.name == cipherStr
                                && crypto.liveTfms == old(crypto.liveTfms) + 1
    ensures res == 0 ==> ci.ctfm != null && ci.ctfm.key == rawKey[..keySize]
  {
    var ctfm, err := crypto.AllocAblkcipher(cipherStr);
    if err != 0 {
      return err;
    }
    ci.ctfm := ctfm;
    res := crypto.SetKey(ctfm, rawKey[..keySize]);
  }

  /**
   * The keying of a freshly allocated record: the cipher of the mode, the raw key buffer, the raw
   * key itself and the cipher transform keyed with it. Stops at the first failure, leaving to its
   * caller the release of what the record holds by then.
   */
  method BuildKey(ci: CryptInfo, mode: int, dummy: bool, ctx: Context, keyPrefix: Option<string>,
                  keyring: map<string, Key>, crypto: Crypto)
      returns (res: int, rawKey: array?<byte>, ghost first: int, ghost second: Option<int>)
    requires ci.ctfm == null && ci.keyringKey == null
    modifies ci`ctfm, ci`keyringKey, crypto`liveTfms, crypto`liveReqs, keyring.Values
    ensures crypto.liveReqs == old(crypto.liveReqs)
    ensures rawKey != null ==> fresh(rawKey) && rawKey.Length == FS_MAX_KEY_SIZE
    ensures KeyingStatus(res, rawKey != null, mode, dummy, ctx, keyPrefix, keyring, crypto.backend, first, second)
    ensures ci.ctfm == null ==> crypto.liveTfms == old(crypto.liveTfms)
    ensures ci.ctfm != null ==> fresh(ci.ctfm) && ci.ctfm.live && CipherName(mode).Some?
                                && ci.ctfm.name == CipherName(mode).value
                                && crypto.liveTfms == old(crypto.liveTfms) + 1
    ensures KeysMoved(keyring.Values, ci.keyringKey, null)
    ensures ci.keyringKey != null ==> !dummy && KeyCheck(ci.keyringKey) == 0
                                      && FoundUnder(ci.keyringKey, keyring, ctx, keyPrefix)
    ensures res == 0 ==> rawKey != null && KeyResolved(dummy, ctx, keyPrefix, keyring, crypto.backend)
                         && KeyInstalled(ci, mode, dummy, ctx, keyPrefix, keyring, crypto.backend)
  {
    rawKey := null;
    first, second := 0, None;
    var cipherStr := CipherName(mode);
    if cipherStr.None? {
      return -ENOKEY, null, 0, None;
    }
    var rawKeyAllocated := *;
    if !rawKeyAllocated {
      return -ENOMEM, null, 0, None;
    }
    rawKey := new byte[FS_MAX_KEY_SIZE];
    res, first, second := ResolveRawKey(ci, ctx, rawKey, dummy, keyPrefix, keyring, crypto);
    if res != 0 {
      return;
    }
    assert rawKey[..] == ResolvedKey(dummy, ctx, keyPrefix, keyring, crypto.backend, first);
    res := SetupCipher(ci, cipherStr.value, rawKey, KeySize(mode), crypto);
  }

  /** The key of the inode could be resolved: the dummy key, or a key that passes validate_user_key. */
  ghost predicate KeyResolved(dummy: bool, ctx: Context, keyPrefix: Option<string>,
                              keyring: map<string, Key>, b: Backend) {
    !dummy ==>
      || Verdict(keyring, FS_KEY_DESC_PREFIX, ctx, b) == 0
      || (keyPrefix.Some? && Verdict(keyring, keyPrefix.value, ctx, b) == 0)
  }

  /** The record's fields were copied from the context, as after kmem_cache_alloc. */
  ghost predicate FieldsFrom(ci: CryptInfo, ctx: Context) {
    && ci.flags == ctx.flags && ci.dataMode == ctx.contentsMode
    && ci.filenameMode == ctx.filenamesMode && ci.masterKey == ctx.descriptor
  }

  /**
   * The record's transform is the mode's cipher keyed with the first fscrypt_key_size(mode) bytes
   * of the raw key: the dummy pattern without a keyring key, or the key derived from the master key
   * of the keyring key the record refers to.
   */
  ghost predicate KeyInstalled(ci: CryptInfo, mode: int, dummy: bool, ctx: Context,
                               keyPrefix: Option<string>, keyring: map<string, Key>, b: Backend)
    reads ci, ci.ctfm
  {
    && ci.ctfm != null && CipherName(mode).Some? && ci.ctfm.name == CipherName(mode).value
    && (dummy ==> ci.keyringKey == null && ci.ctfm.key == DummyRawKey[..KeySize(mode)])
    && (!dummy ==>
          && ci.keyringKey != null && KeyCheck(ci.keyringKey) == 0
          && FoundUnder(ci.keyringKey, keyring, ctx, keyPrefix)
          && ci.ctfm.key == Ecb(b.aes, ctx.nonce, MasterRaw(ci.keyringKey.payload))[..KeySize(mode)])
  }

  /**
   * ci was built for inode by fscrypt_get_crypt_info: from the context read (or faked), for the
   * cipher mode of the inode's kind, keyed with the key resolved for that context.
   */
  ghost predicate BuiltFrom(ci: CryptInfo, inode: Inode, read: ContextRead, keyPrefix: Option<string>,
                            keyring: map<string, Key>, b: Backend)
    reads ci, ci.ctfm
  {
    var choice := ChooseContext(read, inode.dummyEnabled, inode.encrypted);
    && choice.UseContext?
    && FieldsFrom(ci, choice.ctx)
    && SelectMode(inode.kind, choice.ctx).Some?
    && KeyInstalled(ci, SelectMode(inode.kind, choice.ctx).value, inode.dummyEnabled, choice.ctx,
                    keyPrefix, keyring, b)
  }

  // ---------------------------------------------------------------------------------------------
  // fscrypt_get_crypt_info: one pass from the retry label

  datatype Attempt =
    | CacheHit          // the cached record is still good: return 0
    | Invalidated       // the cached record's key went bad; it was dropped: goto retry
    | Installed         // a new record was published: return 0
    | LostRace          // another caller published first; ours was destroyed: goto retry
    | Exited(code: int) // returned code without publishing anything
    | Bug               // BUG() on an inode that is neither a file, a directory nor a symlink

  /**
   * The choices the allocator and the keyring made in a pass that builds a record: whether the
   * record and the raw-key buffer could be allocated, and what the validate_user_key calls returned.
   */
  datatype Choices = Choices(recordAllocated: bool, keyAllocated: bool, first: int, second: Option<int>)

  /**
   * How a pass that keys a record for mode ends: return 0 for a mode without a cipher (its -ENOKEY
   * is soft), -ENOMEM without a raw-key buffer, and otherwise publish the record when BuildStatus is
   * 0 or return that status through the out label.
   */
  ghost predicate KeyingOutcome(o: Attempt, keyAllocated: bool, mode: int, dummy: bool, ctx: Context,
                                keyPrefix: Option<string>, keyring: map<string, Key>, b: Backend,
                                first: int, second: Option<int>) {
    if CipherName(mode).None? then o == Exited(0)
    else if !keyAllocated then o == Exited(-ENOMEM)
    else
      && Resolution(dummy, ctx, keyPrefix, keyring, b, first, second)
      && (BuildStatus(mode, dummy, ctx, keyPrefix, keyring, b, first, second) == 0 ==> o.Installed? || o.LostRace?)
      && (BuildStatus(mode, dummy, ctx, keyPrefix, keyring, b, first, second) != 0 ==>
            o == Exited(ExitStatus(BuildStatus(mode, dummy, ctx, keyPrefix, keyring, b, first, second))))
  }

  /**
   * How a pass on an empty slot ends, in the order fscrypt_get_crypt_info takes its steps: the
   * context error, -ENOMEM for the record, BUG() for an inode of another kind, then the keying.
   */
  ghost predicate PassOutcome(o: Attempt, inode: Inode, read: ContextRead, keyPrefix: Option<string>,
                              keyring: map<string, Key>, b: Backend, c: Choices) {
    if ChooseContext(read, inode.dummyEnabled, inode.encrypted).ContextError? then
      o == Exited(ChooseContext(read, inode.dummyEnabled, inode.encrypted).code)
    else if !c.recordAllocated then o == Exited(-ENOMEM)
    else if inode.kind == OtherKind then o == Bug
    else
      var ctx := ChooseContext(read, inode.dummyEnabled, inode.encrypted).ctx;
      KeyingOutcome(o, c.keyAllocated, SelectMode(inode.kind, ctx).value, inode.dummyEnabled, ctx,
                    keyPrefix, keyring, b, c.first, c.second)
  }

  /**
   * A master key filed under neither prefix is a soft failure: the pass caches nothing and returns
   * 0, unless memory ran out.
   */
  lemma NoKeyIsSoft(o: Attempt, inode: Inode, read: ContextRead, keyPrefix: Option<string>,
                     keyring: map<string, Key>, b: Backend, c: Choices)
    requires PassOutcome(o, inode, read, keyPrefix, keyring, b, c)
    requires !inode.dummyEnabled && inode.kind != OtherKind
    requires ChooseContext(read, inode.dummyEnabled, inode.encrypted).UseContext?
    requires var d := ChooseContext(read, inode.dummyEnabled, inode.encrypted).ctx.descriptor;
             && Description(FS_KEY_DESC_PREFIX, d) !in keyring
             && (keyPrefix.Some? ==> Description(keyPrefix.value, d) !in keyring)
    ensures o == Exited(0) || o == Exited(-ENOMEM)
  {
    var ctx := ChooseContext(read, inode.dummyEnabled, inode.encrypted).ctx;
    if c.recordAllocated && c.keyAllocated {
      var mode := SelectMode(inode.kind, ctx).value;
      if CipherName(mode).Some? {
        var res := PrefixFallback(c.first, c.second);
        assert res == -ENOKEY || res == -ENOMEM;
        assert BuildStatus(mode, false, ctx, keyPrefix, keyring, b, c.first, c.second) == res;
      }
    }
  }

  /** -ENOKEY reaches the caller of a pass only as the error get_context itself returned. */
  lemma NoKeyOnlyFromContext(o: Attempt, inode: Inode, read: ContextRead, keyPrefix: Option<string>,
                             keyring: map<string, Key>, b: Backend, c: Choices)
    requires PassOutcome(o, inode, read, keyPrefix, keyring, b, c)
    requires o == Exited(-ENOKEY)
    ensures ChooseContext(read, inode.dummyEnabled, inode.encrypted).ContextError? && read.res == -ENOKEY
  {
  }

  /**
   * A key that validates under the default prefix is used, and the record is published once its
   * allocations and the cipher setup succeed.
   */
  lemma DefaultKeyPublishes(o: Attempt, inode: Inode, read: ContextRead, keyPrefix: Option<string>,
                            keyring: map<string, Key>, b: Backend, c: Choices)
    requires PassOutcome(o, inode, read, keyPrefix, keyring, b, c)
    requires !inode.dummyEnabled && inode.kind != OtherKind && c.recordAllocated && c.keyAllocated
    requires var choice := ChooseContext(read, inode.dummyEnabled, inode.encrypted);
             && choice.UseContext?
             && var mode := SelectMode(inode.kind, choice.ctx).value;
                && CipherName(mode).Some? && c.first != -ENOMEM
                && Verdict(keyring, FS_KEY_DESC_PREFIX, choice.ctx, b) == 0
                && var k := keyring[Description(FS_KEY_DESC_PREFIX, choice.ctx.descriptor)];
                   SetupStatus(b, CipherName(mode).value,
                               Ecb(b.aes, choice.ctx.nonce, MasterRaw(k.payload))[..KeySize(mode)]) == 0
    ensures o.Installed? || o.LostRace?
  {
    var ctx := ChooseContext(read, inode.dummyEnabled, inode.encrypted).ctx;
    var mode := SelectMode(inode.kind, ctx).value;
    assert c.first == 0 && UsedDescription(ctx, keyPrefix, c.first) == Description(FS_KEY_DESC_PREFIX, ctx.descriptor);
    assert BuildStatus(mode, false, ctx, keyPrefix, keyring, b, c.first, c.second) == 0;
  }

  /**
   * What the last pass tells the caller of fscrypt_get_crypt_info (cachedGood: the slot's record
   * was good on entry): when get_context fails, the pass that finds the slot empty returns its
   * error, and -ENOKEY comes back only as that error.
   */
  lemma LastPassCodes(o: Attempt, inode: Inode, read: ContextRead, keyPrefix: Option<string>,
                      keyring: map<string, Key>, b: Backend, c: Choices, cachedGood: bool)
    requires cachedGood ==> o.CacheHit?
    requires !cachedGood ==>
               if o.CacheHit? then ChooseContext(read, inode.dummyEnabled, inode.encrypted).UseContext?
               else PassOutcome(o, inode, read, keyPrefix, keyring, b, c)
    ensures !cachedGood && ChooseContext(read, inode.dummyEnabled, inode.encrypted).ContextError? ==>
              Result(o) == Returned(ChooseContext(read, inode.dummyEnabled, inode.encrypted).code)
    ensures Result(o) == Returned(-ENOKEY) ==> read.res == -ENOKEY
  {
    if Result(o) == Returned(-ENOKEY) {
      NoKeyOnlyFromContext(o, inode, read, keyPrefix, keyring, b, c);
    }
  }

  /**
   * The passes of fscrypt_get_crypt_info that find an empty slot: build a record from the inode's
   * context and key, and publish it with a compare-and-swap from NULL. racer, when not null, is a
   * record another caller publishes between the build and the compare-and-swap. The raw key buffer,
   * when one was allocated, is returned for inspection: it is zero on every exit.
   */
  method CreateCryptInfo(inode: Inode, keyPrefix: Option<string>, read: ContextRead,
                         keyring: map<string, Key>, crypto: Crypto, racer: CryptInfo?)
      returns (o: Attempt, rawKey: array?<byte>, ghost c: Choices)
    requires inode.cryptInfo == null
    requires racer != null ==> Usable(racer)
    modifies inode`cryptInfo, crypto`liveTfms, crypto`liveReqs, keyring.Values
    ensures inode.Valid()
    ensures crypto.liveReqs == old(crypto.liveReqs)
    ensures rawKey != null ==> fresh(rawKey) && forall i :: 0 <= i < rawKey.Length ==> rawKey[i] == 0
    ensures PassOutcome(o, inode, read, keyPrefix, keyring, crypto.backend, c)
    ensures !o.Installed? ==> crypto.liveTfms == old(crypto.liveTfms) && KeysMoved(keyring.Values, null, null)
    ensures o.Exited? || o.Bug? ==> inode.cryptInfo == null
    ensures o.LostRace? ==> racer != null && inode.cryptInfo == racer
    ensures o.Installed? ==> racer == null && inode.cryptInfo != null && fresh(inode.cryptInfo)
    ensures o.Installed? ==> crypto.liveTfms == old(crypto.liveTfms) + 1
                             && KeysMoved(keyring.Values, inode.cryptInfo.keyringKey, null)
    // a record is published only when a key was resolved, and holds what was resolved
    ensures o.Installed? || o.LostRace? ==>
              KeyResolved(inode.dummyEnabled, ChooseContext(read, inode.dummyEnabled, inode.encrypted).ctx,
                          keyPrefix, keyring, crypto.backend)
    ensures o.Installed? ==> BuiltFrom(inode.cryptInfo, inode, read, keyPrefix, keyring, crypto.backend)
    // a key gains a reference only as the key of the record published
    ensures forall k: Key :: old(allocated(k)) ==>
              && k.refs == old(k.refs) + (if o.Installed? && k == inode.cryptInfo.keyringKey then 1 else 0)
              && k.readers == old(k.readers)
  {
    c := Choices(false, false, 0, None);
    var choice := ChooseContext(read, inode.dummyEnabled, inode.encrypted);
    if choice.ContextError? {
      return Exited(choice.code), null, c;
    }
    var ctx := choice.ctx;
    var recordAllocated := *;
    if !recordAllocated {
      return Exited(-ENOMEM), null, c;
    }
    var ci := new CryptInfo.FromContext(ctx);
    var mode := SelectMode(inode.kind, ctx);
    if mode.None? {
      return Bug, null, Choices(true, false, 0, None);
    }
    ghost var first, second;
    o, rawKey, first, second := KeyAndPublish(inode, ci, mode.value, ctx, keyPrefix, keyring, crypto, racer);
    c := Choices(true, rawKey != null, first, second);
  }

  /**
   * The freshly allocated record ci of an inode whose slot is empty is keyed for mode, then
   * published, or destroyed through the out label when keying fails.
   */
  method KeyAndPublish(inode: Inode, ci: CryptInfo, mode: int, ctx: Context, keyPrefix: Option<string>,
                       keyring: map<string, Key>, crypto: Crypto, racer: CryptInfo?)
      returns (o: Attempt, rawKey: array?<byte>, ghost first: int, ghost second: Option<int>)
    requires inode.cryptInfo == null && ci.live && ci.ctfm == null && ci.keyringKey == null
    requires racer != null ==> Usable(racer) && racer != ci
    modifies inode`cryptInfo, crypto`liveTfms, crypto`liveReqs, keyring.Values, ci
    ensures inode.Valid()
    ensures crypto.liveReqs == old(crypto.liveReqs)
    ensures rawKey != null ==> fresh(rawKey) && forall i :: 0 <= i < rawKey.Length ==> rawKey[i] == 0
    ensures KeyingOutcome(o, rawKey != null, mode, inode.dummyEnabled, ctx, keyPrefix, keyring, crypto.backend,
                          first, second)
    ensures o.Exited? ==> inode.cryptInfo == null
    ensures !o.Installed? ==> crypto.liveTfms == old(crypto.liveTfms) && KeysMoved(keyring.Values, null, null)
    ensures o.LostRace? ==> racer != null && inode.cryptInfo == racer
    ensures o.LostRace? || o.Installed? ==> KeyResolved(inode.dummyEnabled, ctx, keyPrefix, keyring, crypto.backend)
    ensures o.Installed? ==> racer == null && inode.cryptInfo == ci
                             && crypto.liveTfms == old(crypto.liveTfms) + 1
                             && KeysMoved(keyring.Values, ci.keyringKey, null)
                             && KeyInstalled(ci, mode, inode.dummyEnabled, ctx, keyPrefix, keyring, crypto.backend)
  {
    var res;
    res, rawKey, first, second := KeyRecord(ci, mode, inode.dummyEnabled, ctx, keyPrefix, keyring, crypto);
    if res != 0 {
      return Exited(ExitStatus(res)), rawKey, first, second;
    }
    assert Footprint(ci) <= {ci, ci.ctfm} + keyring.Values;
    var won := WipeAndPublish(inode, ci, rawKey, racer, crypto, keyring.Values);
    o := if won then Installed else LostRace;
  }

  /**
   * The keying of a record and, when it fails, the out label: a record keyed for mode, or on
   * failure the record destroyed with every reference it took dropped, and the raw key wiped.
   */
  method KeyRecord(ci: CryptInfo, mode: int, dummy: bool, ctx: Context, keyPrefix: Option<string>,
                   keyring: map<string, Key>, crypto: Crypto)
      returns (res: int, rawKey: array?<byte>, ghost first: int, ghost second: Option<int>)
    requires ci.live && ci.ctfm == null && ci.keyringKey == null
    modifies ci, crypto`liveTfms, crypto`liveReqs, keyring.Values
    ensures crypto.liveReqs == old(crypto.liveReqs)
    ensures rawKey != null ==> fresh(rawKey)
    ensures KeyingStatus(res, rawKey != null, mode, dummy, ctx, keyPrefix, keyring, crypto.backend, first, second)
    ensures res != 0 ==> !ci.live && crypto.liveTfms == old(crypto.liveTfms)
                         && KeysMoved(keyring.Values, null, null)
                         && (rawKey != null ==> forall i :: 0 <= i < rawKey.Length ==> rawKey[i] == 0)
    ensures res == 0 ==> rawKey != null && Usable(ci) && fresh(ci.ctfm)
                         && (ci.keyringKey != null ==> ci.keyringKey in keyring.Values)
                         && crypto.liveTfms == old(crypto.liveTfms) + 1
                         && KeysMoved(keyring.Values, ci.keyringKey, null)
                         && KeyResolved(dummy, ctx, keyPrefix, keyring, crypto.backend)
                         && KeyInstalled(ci, mode, dummy, ctx, keyPrefix, keyring, crypto.backend)
  {
    res, rawKey, first, second := BuildKey(ci, mode, dummy, ctx, keyPrefix, keyring, crypto);
    if res != 0 {
      DiscardRecord(ci, rawKey, keyring, crypto);
    }
  }

  /**
   * The success path after setkey: the raw key is wiped with kzfree, and only then is the record
   * published.
   */
  method WipeAndPublish(inode: Inode, ci: CryptInfo, rawKey: array?<byte>, racer: CryptInfo?, crypto: Crypto,
                        ghost keys: set<Key>)
      returns (won: bool)
    requires inode.cryptInfo == null && Usable(ci)
    requires racer != null ==> Usable(racer) && racer != ci && racer.ctfm != ci.ctfm
    modifies inode`cryptInfo, crypto`liveTfms, Footprint(ci), rawKey
    ensures crypto.liveReqs == old(crypto.liveReqs)
    ensures inode.Valid()
    ensures rawKey != null ==> forall i :: 0 <= i < rawKey.Length ==> rawKey[i] == 0
    ensures won <==> racer == null
    ensures won ==> inode.cryptInfo == ci && unchanged(old(Footprint(ci)))
                    && crypto.liveTfms == old(crypto.liveTfms)
    ensures !won ==> inode.cryptInfo == racer && Destroyed(ci, crypto)
    ensures KeysMoved(keys, null, if won then null else ci.keyringKey)
  {
    Kzfree(rawKey);
    won := Publish(inode, ci, racer, crypto, keys, rawKey);
  }

  /** The out label after the record holds whatever it got: it is destroyed and the raw key wiped. */
  method DiscardRecord(ci: CryptInfo, rawKey: array?<byte>, keyring: map<string, Key>, crypto: Crypto)
    requires ci.live && (ci.ctfm != null ==> ci.ctfm.live)
    requires ci.keyringKey != null ==> ci.keyringKey in keyring.Values
    modifies crypto`liveTfms, Footprint(ci), rawKey
    ensures Destroyed(ci, crypto)
    ensures KeysMoved(keyring.Values, null, ci.keyringKey)
    ensures rawKey != null ==> forall i :: 0 <= i < rawKey.Length ==> rawKey[i] == 0
  {
    PutCryptInfo(ci, crypto);
    Kzfree(rawKey);
  }

  /**
   * cmpxchg(&inode->i_crypt_info, NULL, ci), which the source reaches only once the raw key
   * (rawKey, when one was allocated) is wiped. racer, when not null, is published by another caller
   * just before; the compare-and-swap then fails and ci is destroyed.
   */
  method Publish(inode: Inode, ci: CryptInfo, racer: CryptInfo?, crypto: Crypto, ghost keys: set<Key>,
                 ghost rawKey: array?<byte>)
      returns (won: bool)
    requires inode.cryptInfo == null && Usable(ci)
    requires racer != null ==> Usable(racer) && racer != ci && racer.ctfm != ci.ctfm
    requires rawKey != null ==> forall i :: 0 <= i < rawKey.Length ==> rawKey[i] == 0
    modifies inode`cryptInfo, crypto`liveTfms, Footprint(ci)
    ensures inode.Valid()
    ensures won <==> racer == null
    ensures won ==> inode.cryptInfo == ci && unchanged(old(Footprint(ci)))
                    && crypto.liveTfms == old(crypto.liveTfms)
    ensures !won ==> inode.cryptInfo == racer && Destroyed(ci, crypto)
    ensures KeysMoved(keys, null, if won then null else ci.keyringKey)
  {
    if racer != null {
      inode.cryptInfo := racer;
    }
    var prev := inode.Cmpxchg(null, ci);
    if prev != null {
      PutCryptInfo(ci, crypto);
      return false;
    }
    return true;
  }

  /**
   * What a pass leaves behind apart from the slot: the raw key it used wiped, and the transform and
   * key references of a record it did not publish released again.
   */
  twostate predicate PassAccounted(o: Attempt, inode: Inode, keyring: map<string, Key>, crypto: Crypto,
                                   new rawKey: array?<byte>)
    reads inode, inode.cryptInfo, crypto, keyring.Values, rawKey
  {
    && (rawKey != null ==> fresh(rawKey) && forall i :: 0 <= i < rawKey.Length ==> rawKey[i] == 0)
    && (o.Exited? || o.Bug? || o.LostRace? ==>
          crypto.liveTfms == old(crypto.liveTfms) && KeysMoved(keyring.Values, null, null))
    && (o.Installed? ==>
          && inode.cryptInfo != null && crypto.liveTfms == old(crypto.liveTfms) + 1
          && KeysMoved(keyring.Values, inode.cryptInfo.keyringKey, null))
  }

  /** fscrypt_get_crypt_info returns 0 for the slot's record: it has no keyring key, or its key validates. */
  ghost predicate CachedGood(ci: CryptInfo?)
    reads ci
  {
    ci != null && (ci.keyringKey == null || KeyValidate(ci.keyringKey) == 0)
  }

  /**
   * One pass of fscrypt_get_crypt_info from the retry label: a cached record is kept while it has
   * no keyring key or its key still validates, and dropped otherwise; an empty slot is filled by
   * CreateCryptInfo. The slot changes only from NULL to a new record (or to racer's), or from the
   * exact record that was found to NULL.
   */
  method GetCryptInfoAttempt(inode: Inode, keyPrefix: Option<string>, read: ContextRead,
                             keyring: map<string, Key>, crypto: Crypto, racers: seq<CryptInfo>, next: nat)
      returns (o: Attempt, rawKey: array?<byte>, ghost c: Choices)
    requires inode.Valid()
    requires forall i :: next <= i < |racers| ==> Usable(racers[i]) && racers[i] != inode.cryptInfo
    requires inode.cryptInfo != null ==> forall i :: next <= i < |racers| ==> racers[i].ctfm != inode.cryptInfo.ctfm
    requires forall i, j :: next <= i < j < |racers| ==> racers[i] != racers[j] && racers[i].ctfm != racers[j].ctfm
    // no record changes the transform or key it points to; the racers not yet published stay fit
    // to be published, apart from the slot's record
    ensures forall i :: 0 <= i < |racers| ==>
              racers[i].ctfm == old(racers[i].ctfm) && racers[i].keyringKey == old(racers[i].keyringKey)
    ensures var rest := if o.LostRace? then next + 1 else next;
            forall i :: rest <= i < |racers| ==>
              && Usable(racers[i]) && racers[i] != inode.cryptInfo
              && (inode.cryptInfo != null ==> racers[i].ctfm != inode.cryptInfo.ctfm)
    modifies inode`cryptInfo, crypto`liveTfms, crypto`liveReqs, keyring.Values, Footprint(inode.cryptInfo)
    ensures inode.Valid()
    ensures crypto.liveReqs == old(crypto.liveReqs)
    ensures o.CacheHit? || o.Invalidated? <==> old(inode.cryptInfo) != null
    ensures o.CacheHit? <==> old(CachedGood(inode.cryptInfo))
    ensures o.CacheHit? ==> inode.cryptInfo == old(inode.cryptInfo) && unchanged(old(Footprint(inode.cryptInfo)))
                            && crypto.liveTfms == old(crypto.liveTfms) && unchanged(keyring.Values)
    ensures o.Invalidated? ==> inode.cryptInfo == null
                               && Destroyed(old(inode.cryptInfo), crypto)
                               && KeysMoved(keyring.Values, null, old(inode.cryptInfo.keyringKey))
    ensures old(inode.cryptInfo) == null ==> PassOutcome(o, inode, read, keyPrefix, keyring, crypto.backend, c)
    ensures o.Exited? || o.Bug? ==> inode.cryptInfo == null
    ensures o.LostRace? ==> next < |racers| && inode.cryptInfo == racers[next]
    ensures o.Installed? ==> old(inode.cryptInfo) == null && fresh(inode.cryptInfo)
                             && BuiltFrom(inode.cryptInfo, inode, read, keyPrefix, keyring, crypto.backend)
    ensures PassAccounted(o, inode, keyring, crypto, rawKey)
    // a destroyed record is never revived, and keeps the key pointer it had
    ensures forall x: CryptInfo :: old(allocated(x)) && !old(x.live) ==>
              !x.live && x.keyringKey == old(x.keyringKey)
    // a key loses a reference only as the key of the record dropped, and gains one only as the key
    // of the record published
    ensures forall k: Key :: old(allocated(k)) ==>
              && k.refs == old(k.refs) - (if o.Invalidated? && k == old(inode.cryptInfo.keyringKey) then 1 else 0)
                           + (if o.Installed? && k == inode.cryptInfo.keyringKey then 1 else 0)
              && k.readers == old(k.readers)
  {
    c := Choices(false, false, 0, None);
    var ci := inode.cryptInfo;
    if ci != null {
      if ci.keyringKey == null || KeyValidate(ci.keyringKey) == 0 {
        return CacheHit, null, c;
      }
      PutEncryptionInfo(inode, ci, crypto);
      return Invalidated, null, c;
    }
    var racer := if next < |racers| then racers[next] else null;
    o, rawKey, c := CreateCryptInfo(inode, keyPrefix, read, keyring, crypto, racer);
  }

  // ---------------------------------------------------------------------------------------------
  // fscrypt_get_crypt_info and fscrypt_get_encryption_info

  /**
   * Records other callers publish, in order, each just before one of this caller's compare-and-swap
   * attempts: live, distinct from each other and from the slot's record, and sharing no transform.
   */
  ghost predicate RacersFit(racers: seq<CryptInfo>, slot: CryptInfo?)
    reads set r | r in racers, set r | r in racers :: r.ctfm, slot
  {
    && (forall i :: 0 <= i < |racers| ==>
          && Usable(racers[i]) && racers[i] != slot
          && (slot != null ==> racers[i].ctfm != slot.ctfm))
    && (forall i, j :: 0 <= i < j < |racers| ==> racers[i] != racers[j] && racers[i].ctfm != racers[j].ctfm)
  }

  /** ci, when not null, lies in pool together with the transform and key it points to. */
  ghost predicate InPool(ci: CryptInfo?, pool: set<object>)
    reads pool
  {
    ci != null ==>
      && ci in pool
      && (ci.ctfm != null ==> ci.ctfm in pool)
      && (ci.keyringKey != null ==> ci.keyringKey in pool)
  }

  /** What fscrypt_get_crypt_info does: return a code, or stop the machine in BUG(). */
  datatype Outcome = Returned(code: int) | Oops

  /** What the caller sees of the pass fscrypt_get_crypt_info ends with. */
  function Result(o: Attempt): Outcome {
    match o
    case Exited(code) => Returned(code)
    case Bug => Oops
    case _ => Returned(0)
  }

  /**
   * What the passes of one call did: the outcome and choices of the last pass, and the records
   * dropped on the way, in order, with the keyring key each held.
   */
  datatype History = History(last: Attempt, choices: Choices, dropped: seq<CryptInfo>, droppedKeys: seq<Key?>)

  /**
   * The contract of fscrypt_get_crypt_info: Answered says what it returns and what the slot then
   * holds, Released what it releases.
   */
  twostate predicate Fetched(r: Outcome, new h: History, inode: Inode, initStatus: int, hasGetContext: bool,
                             keyPrefix: Option<string>, read: ContextRead, keyring: map<string, Key>,
                             crypto: Crypto, racers: seq<CryptInfo>)
    reads inode, Footprint(inode.cryptInfo), crypto, set x | x in h.dropped
  {
    && Answered(r, h, inode, initStatus, hasGetContext, keyPrefix, read, keyring, crypto, racers)
    && Released(h, inode, crypto, racers)
  }

  /**
   * The fscrypt_initialize and get_context checks come first. Then a record in the slot that has
   * no keyring key, or whose key validates, is kept with nothing changed, and 0 is returned.
   * Otherwise the result is that of the last pass: a racer's record found good, or a pass on an
   * empty slot as PassOutcome says.
   */
  twostate predicate Answered(r: Outcome, new h: History, inode: Inode, initStatus: int, hasGetContext: bool,
                              keyPrefix: Option<string>, read: ContextRead, keyring: map<string, Key>,
                              crypto: Crypto, racers: seq<CryptInfo>)
    reads inode, Footprint(inode.cryptInfo), crypto
  {
    && (initStatus != 0 ==> r == Returned(initStatus))
    && (initStatus == 0 && !hasGetContext ==> r == Returned(-EOPNOTSUPP))
    && (!(initStatus == 0 && hasGetContext) ==> inode.cryptInfo == old(inode.cryptInfo) && h.dropped == [])
    && r == Result(h.last)
    // get_context's error is returned as it is; -ENOKEY is returned only when it is that error
    && (initStatus == 0 && hasGetContext && !old(CachedGood(inode.cryptInfo))
        && ChooseContext(read, inode.dummyEnabled, inode.encrypted).ContextError? ==>
          r == Returned(ChooseContext(read, inode.dummyEnabled, inode.encrypted).code))
    && (initStatus == 0 && hasGetContext && r == Returned(-ENOKEY) ==> read.res == -ENOKEY)
    && (initStatus == 0 && hasGetContext && old(CachedGood(inode.cryptInfo)) ==>
          && r == Returned(0) && inode.cryptInfo == old(inode.cryptInfo)
          && inode.cryptInfo.ctfm == old(inode.cryptInfo.ctfm)
          && inode.cryptInfo.keyringKey == old(inode.cryptInfo.keyringKey)
          && unchanged(Footprint(inode.cryptInfo)) && h.dropped == [])
    && (initStatus == 0 && hasGetContext && !old(CachedGood(inode.cryptInfo)) ==>
          if h.last.CacheHit?
          then inode.cryptInfo in racers && ChooseContext(read, inode.dummyEnabled, inode.encrypted).UseContext?
          else PassOutcome(h.last, inode, read, keyPrefix, keyring, crypto.backend, h.choices))
    && (initStatus == 0 && hasGetContext && old(inode.cryptInfo) != null && !old(CachedGood(inode.cryptInfo)) ==>
          inode.cryptInfo != old(inode.cryptInfo) && |h.dropped| > 0 && h.dropped[0] == old(inode.cryptInfo))
    && (initStatus == 0 && hasGetContext && r != Returned(0) ==> inode.cryptInfo == null)
    // the slot ends empty, with the record it had, with a racer's, or with a new one
    && (|| inode.cryptInfo == null || inode.cryptInfo == old(inode.cryptInfo)
        || inode.cryptInfo in racers || fresh(inode.cryptInfo))
    // a record this call publishes holds the inode's context and the key resolved for it
    && (fresh(inode.cryptInfo) ==>
          r == Returned(0) && BuiltFrom(inode.cryptInfo, inode, read, keyPrefix, keyring, crypto.backend))
  }

  /**
   * Every record that left the slot was destroyed, none twice, each with the keyring key it held at
   * the start; the live transforms are those at the start, less what the dropped records held, plus
   * what a published record holds. GetCryptInfo states the reference counts of the keys beside it.
   */
  twostate predicate Released(new h: History, inode: Inode, crypto: Crypto, racers: seq<CryptInfo>)
    reads inode, crypto, set x | x in h.dropped
  {
    && |h.droppedKeys| == |h.dropped|
    && (forall i :: 0 <= i < |h.dropped| ==>
          && (h.dropped[i] == old(inode.cryptInfo) || h.dropped[i] in racers)
          && !h.dropped[i].live && h.droppedKeys[i] == h.dropped[i].keyringKey
          && var x := h.dropped[i]; h.droppedKeys[i] == old(x.keyringKey))
    && (forall i, j :: 0 <= i < j < |h.dropped| ==> h.dropped[i] != h.dropped[j])
    && crypto.liveTfms == old(crypto.liveTfms) - |h.dropped| + (if fresh(inode.cryptInfo) then 1 else 0)
  }

  /**
   * fscrypt_get_crypt_info. initStatus is what fscrypt_initialize returns and hasGetContext whether
   * the filesystem supplies s_cop->get_context; the passes from the retry label are RetryLoop.
   */
  /**
   * fscrypt_get_crypt_info once fscrypt_initialize has succeeded and the filesystem supplies
   * s_cop->get_context: the passes from the retry label, which RetryLoop models, and the code the
   * last of them leaves.
   */
  method GetCryptInfoRetrying(inode: Inode, keyPrefix: Option<string>, read: ContextRead,
                              keyring: map<string, Key>, crypto: Crypto, racers: seq<CryptInfo>)
      returns (r: Outcome, ghost h: History)
    requires inode.Valid() && RacersFit(racers, inode.cryptInfo)
    modifies inode`cryptInfo, crypto`liveTfms, crypto`liveReqs, keyring.Values
    modifies Footprint(inode.cryptInfo), set r | r in racers, set r | r in racers :: r.ctfm
    modifies set r | r in racers :: r.keyringKey
    ensures inode.Valid()
    ensures crypto.liveReqs == old(crypto.liveReqs)
    ensures r.Oops? ==> inode.kind == OtherKind
    ensures Fetched(r, h, inode, 0, true, keyPrefix, read, keyring, crypto, racers)
    // every key there at the start has the references it had, less one for each dropped record that
    // held it, plus one if it is the key of the record published; no payload read-lock is left held
    ensures forall k: Key :: old(allocated(k)) ==>
              && k.refs == old(k.refs) - multiset(h.droppedKeys)[k]
                           + (if fresh(inode.cryptInfo) && k == inode.cryptInfo.keyringKey then 1 else 0)
              && k.readers == old(k.readers)
  {
    ghost var cachedGood := CachedGood(inode.cryptInfo);
    ghost var pool: set<object> := Footprint(inode.cryptInfo) + (set r | r in racers :: r as object)
                                   + (set r | r in racers && r.ctfm != null :: r.ctfm as object)
                                   + (set r | r in racers && r.keyringKey != null :: r.keyringKey as object);
    var o;
    ghost var c, dropped, droppedKeys;
    o, c, dropped, droppedKeys := RetryLoop(inode, keyPrefix, read, keyring, crypto, racers, pool);
    LastPassCodes(o, inode, read, keyPrefix, keyring, crypto.backend, c, cachedGood);
    r := Result(o);
    h := History(o, c, dropped, droppedKeys);
  }

  /**
   * fscrypt_get_crypt_info. initStatus is what fscrypt_initialize returns and hasGetContext whether
   * the filesystem supplies s_cop->get_context.
   */
  method GetCryptInfo(inode: Inode, initStatus: int, hasGetContext: bool, keyPrefix: Option<string>,
                      read: ContextRead, keyring: map<string, Key>, crypto: Crypto, racers: seq<CryptInfo>)
      returns (r: Outcome, ghost h: History)
    requires inode.Valid() && RacersFit(racers, inode.cryptInfo)
    modifies inode`cryptInfo, crypto`liveTfms, crypto`liveReqs, keyring.Values
    modifies Footprint(inode.cryptInfo), set r | r in racers, set r | r in racers :: r.ctfm
    modifies set r | r in racers :: r.keyringKey
    ensures inode.Valid()
    ensures crypto.liveReqs == old(crypto.liveReqs)
    ensures r.Oops? ==> inode.kind == OtherKind
    ensures Fetched(r, h, inode, initStatus, hasGetContext, keyPrefix, read, keyring, crypto, racers)
    // every key there at the start has the references it had, less one for each dropped record that
    // held it, plus one if it is the key of the record published; no payload read-lock is left held
    ensures forall k: Key :: old(allocated(k)) ==>
              && k.refs == old(k.refs) - multiset(h.droppedKeys)[k]
                           + (if fresh(inode.cryptInfo) && k == inode.cryptInfo.keyringKey then 1 else 0)
              && k.readers == old(k.readers)
  {
    if initStatus != 0 {
      return Returned(initStatus), History(Exited(initStatus), Choices(false, false, 0, None), [], []);
    }
    if !hasGetContext {
      return Returned(-EOPNOTSUPP), History(Exited(-EOPNOTSUPP), Choices(false, false, 0, None), [], []);
    }
    r, h := GetCryptInfoRetrying(inode, keyPrefix, read, keyring, crypto, racers);
  }

  /**
   * fscrypt_get_encryption_info: a record already in the slot is used as it is unless its keyring
   * key is invalidated, revoked or dead; otherwise fscrypt_get_crypt_info runs.
   */
  method GetEncryptionInfo(inode: Inode, initStatus: int, hasGetContext: bool, keyPrefix: Option<string>,
                           read: ContextRead, keyring: map<string, Key>, crypto: Crypto, racers: seq<CryptInfo>)
      returns (r: Outcome, ghost h: History)
    requires inode.Valid() && RacersFit(racers, inode.cryptInfo)
    modifies inode`cryptInfo, crypto`liveTfms, crypto`liveReqs, keyring.Values
    modifies Footprint(inode.cryptInfo), set r | r in racers, set r | r in racers :: r.ctfm
    modifies set r | r in racers :: r.keyringKey
    ensures inode.Valid()
    ensures crypto.liveReqs == old(crypto.liveReqs)
    // a record whose key carries none of the three flags is kept without further checks
    ensures old(inode.cryptInfo) != null
            && (old(inode.cryptInfo.keyringKey) == null || !KeyFlagged(old(inode.cryptInfo.keyringKey)))
            ==> && r == Returned(0) && inode.cryptInfo == old(inode.cryptInfo)
                && unchanged(old(Footprint(inode.cryptInfo))) && crypto.liveTfms == old(crypto.liveTfms)
                && unchanged(keyring.Values)
    // otherwise the outcome is fscrypt_get_crypt_info's, which drops a record with a flagged key
    ensures old(inode.cryptInfo) == null || (old(inode.cryptInfo.keyringKey) != null
                                              && KeyFlagged(old(inode.cryptInfo.keyringKey))) ==>
              && Fetched(r, h, inode, initStatus, hasGetContext, keyPrefix, read, keyring, crypto, racers)
              && !old(CachedGood(inode.cryptInfo))
    ensures r.Oops? ==> inode.kind == OtherKind
    // every key there at the start has the references it had, less one for each dropped record that
    // held it, plus one if it is the key of the record published; no payload read-lock is left held
    ensures forall k: Key :: old(allocated(k)) ==>
              && k.refs == old(k.refs) - multiset(h.droppedKeys)[k]
                           + (if fresh(inode.cryptInfo) && k == inode.cryptInfo.keyringKey then 1 else 0)
              && k.readers == old(k.readers)
  {
    var ci := inode.cryptInfo;
    if ci == null || (ci.keyringKey != null && KeyFlagged(ci.keyringKey)) {
      r, h := GetCryptInfo(inode, initStatus, hasGetContext, keyPrefix, read, keyring, crypto, racers);
    } else {
      r := Returned(0);
      h := History(CacheHit, Choices(false, false, 0, None), [], []);
    }
  }

  /**
   * What RetryLoop sees on entry: the slot's record and the key it points to, whether that record
   * is good, and the counts of live transforms and live requests.
   */
  datatype Entry = Entry(slot: CryptInfo?, slotKey: Key?, good: bool, tfms: int, reqs: int)

  /**
   * The racers not yet used stay fit to be published and lie in pool; no racer is the record the
   * slot held on entry.
   */
  ghost predicate RacersLeft(e: Entry, inode: Inode, racers: seq<CryptInfo>, pool: set<object>, next: int)
    reads inode, pool
  {
    && 0 <= next <= |racers|
    && InPool(inode.cryptInfo, pool) && (forall i :: next <= i < |racers| ==> InPool(racers[i], pool))
    && (forall i :: 0 <= i < |racers| ==> racers[i] in pool && racers[i] != e.slot)
    && inode.Valid()
    && (forall i :: next <= i < |racers| ==> Usable(racers[i]) && racers[i] != inode.cryptInfo)
    && (inode.cryptInfo != null ==> forall i :: next <= i < |racers| ==> racers[i].ctfm != inode.cryptInfo.ctfm)
    && (forall i, j :: next <= i < j < |racers| ==> racers[i] != racers[j] && racers[i].ctfm != racers[j].ctfm)
  }

  /**
   * The slot holds nothing, the entry record (before any pass changed anything) or the last racer
   * lost to; a good entry record is still there, and an entry record no longer there was the first
   * one dropped.
   */
  ghost predicate SlotHistory(e: Entry, inode: Inode, read: ContextRead, racers: seq<CryptInfo>, next: int,
                              dropped: seq<CryptInfo>)
    reads inode, e.slot
  {
    && (e.slot != null ==> e.slot.keyringKey == e.slotKey)
    && e.good == (e.slot != null && (e.slotKey == null || KeyValidate(e.slotKey) == 0))
    && (|| inode.cryptInfo == null
        || (inode.cryptInfo == e.slot && next == 0 && dropped == [])
        || (0 < next <= |racers| && inode.cryptInfo == racers[next - 1]))
    && (0 < next ==> ChooseContext(read, inode.dummyEnabled, inode.encrypted).UseContext?)
    && (e.good ==> inode.cryptInfo == e.slot && next == 0 && dropped == [])
    && (e.slot != null && inode.cryptInfo != e.slot ==> |dropped| > 0 && dropped[0] == e.slot)
  }

  /**
   * Everything dropped was destroyed, and the live transforms are those on entry less what the
   * dropped records held.
   */
  ghost predicate DropsAccounted(e: Entry, crypto: Crypto, racers: seq<CryptInfo>, pool: set<object>,
                                 dropped: seq<CryptInfo>, droppedKeys: seq<Key?>)
    reads crypto, pool
  {
    && crypto.liveReqs == e.reqs
    && |droppedKeys| == |dropped|
    && (forall i :: 0 <= i < |dropped| ==> dropped[i] in pool)
    && (forall i :: 0 <= i < |dropped| ==>
          && (dropped[i] == e.slot || dropped[i] in racers)
          && !dropped[i].live && droppedKeys[i] == dropped[i].keyringKey)
    && (forall i, j :: 0 <= i < j < |dropped| ==> dropped[i] != dropped[j])
    && crypto.liveTfms == e.tfms - |dropped|
  }

  /** What holds at the retry label after the passes so far, against what was seen on entry. */
  ghost predicate Kept(e: Entry, inode: Inode, read: ContextRead, crypto: Crypto,
                       racers: seq<CryptInfo>, pool: set<object>, next: int,
                       dropped: seq<CryptInfo>, droppedKeys: seq<Key?>)
    reads inode, crypto, pool, e.slot
  {
    && RacersLeft(e, inode, racers, pool, next)
    && SlotHistory(e, inode, read, racers, next, dropped)
    && DropsAccounted(e, crypto, racers, pool, dropped, droppedKeys)
  }

  /*
   * RaceLostKept, DroppedKept and FinalPassKept are lemmas about one pass, each written as a
   * twostate predicate that always holds: its requires are what GetCryptInfoAttempt promises of
   * the pass, and its ensures are the account carried on to the next pass or to the caller.
   * RetryPass asserts the one that matches how the pass ended.
   */

  /** A pass that loses the race to the next racer leaves that racer in the slot and goes round again. */
  twostate predicate RaceLostKept(e: Entry, inode: Inode, read: ContextRead, crypto: Crypto,
                                  racers: seq<CryptInfo>, pool: set<object>, next: int, nextAfter: int,
                                  dropped: seq<CryptInfo>, droppedKeys: seq<Key?>)
    reads inode, crypto, pool, e.slot
    requires old(Kept(e, inode, read, crypto, racers, pool, next, dropped, droppedKeys)) && nextAfter == next + 1
    requires old(inode.cryptInfo) == null && next < |racers| && inode.cryptInfo == racers[next]
    requires inode.Valid() && crypto.liveReqs == old(crypto.liveReqs) && crypto.liveTfms == old(crypto.liveTfms)
    requires ChooseContext(read, inode.dummyEnabled, inode.encrypted).UseContext?
    requires forall i :: 0 <= i < |racers| ==>
               racers[i].ctfm == old(racers[i].ctfm) && racers[i].keyringKey == old(racers[i].keyringKey)
    requires forall i :: next + 1 <= i < |racers| ==>
               && Usable(racers[i]) && racers[i] != inode.cryptInfo
               && (inode.cryptInfo != null ==> racers[i].ctfm != inode.cryptInfo.ctfm)
    requires forall i :: 0 <= i < |dropped| ==>
               !dropped[i].live && dropped[i].keyringKey == old(dropped[i].keyringKey)
    ensures !e.good
    ensures Kept(e, inode, read, crypto, racers, pool, nextAfter, dropped, droppedKeys)
  {
    true
  }

  /** A pass that drops an invalidated record adds it to those dropped and goes round again. */
  twostate predicate DroppedKept(e: Entry, inode: Inode, read: ContextRead, crypto: Crypto,
                                 racers: seq<CryptInfo>, pool: set<object>, next: int,
                                 dropped: seq<CryptInfo>, droppedKeys: seq<Key?>, gone: CryptInfo, goneKey: Key?)
    reads inode, crypto, pool, e.slot, gone, gone.ctfm, gone.keyringKey
    requires gone == old(inode.cryptInfo) && goneKey == old(inode.cryptInfo.keyringKey)
    requires old(Kept(e, inode, read, crypto, racers, pool, next, dropped, droppedKeys))
    requires old(inode.cryptInfo) != null && !old(CachedGood(inode.cryptInfo)) && inode.cryptInfo == null
    requires Destroyed(gone, crypto)
    requires inode.Valid() && crypto.liveReqs == old(crypto.liveReqs)
    requires forall i :: 0 <= i < |racers| ==>
               racers[i].ctfm == old(racers[i].ctfm) && racers[i].keyringKey == old(racers[i].keyringKey)
    requires forall i :: next <= i < |racers| ==> Usable(racers[i])
    requires forall i :: 0 <= i < |dropped| ==>
               !dropped[i].live && dropped[i].keyringKey == old(dropped[i].keyringKey)
    ensures !e.good
    ensures Kept(e, inode, read, crypto, racers, pool, next, dropped + [gone], droppedKeys + [goneKey])
  {
    true
  }

  /**
   * The account the pass that returns leaves, against what RetryLoop saw on entry (e): a good entry
   * record is returned with nothing dropped; otherwise the entry record, if there was one, is the
   * first dropped, with the key it held on entry, and a record returned as good is a racer's. Every
   * record dropped was destroyed, none twice, and the live transforms are those on entry, less what
   * the dropped records held, plus what a published record holds.
   */
  ghost predicate Account(e: Entry, o: Attempt, inode: Inode, read: ContextRead, crypto: Crypto,
                          racers: seq<CryptInfo>, dropped: seq<CryptInfo>, droppedKeys: seq<Key?>)
    reads inode, e.slot, (set x | x in dropped), crypto
  {
    && crypto.liveReqs == e.reqs
    && (e.good ==> o.CacheHit? && inode.cryptInfo == e.slot && dropped == [])
    && (!e.good && o.CacheHit? ==>
          inode.cryptInfo in racers && ChooseContext(read, inode.dummyEnabled, inode.encrypted).UseContext?)
    && |droppedKeys| == |dropped|
    && (e.slot != null ==> e.slot.keyringKey == e.slotKey)
    && (e.slot != null && !e.good ==>
          inode.cryptInfo != e.slot && |dropped| > 0 && dropped[0] == e.slot && droppedKeys[0] == e.slotKey)
    && (o.CacheHit? ==> inode.cryptInfo == e.slot || inode.cryptInfo in racers)
    && (forall i :: 0 <= i < |dropped| ==>
          && (dropped[i] == e.slot || dropped[i] in racers)
          && !dropped[i].live && droppedKeys[i] == dropped[i].keyringKey)
    && (forall i, j :: 0 <= i < j < |dropped| ==> dropped[i] != dropped[j])
    && crypto.liveTfms == e.tfms - |dropped| + (if o.Installed? then 1 else 0)
  }

  /**
   * The pass that returns: the account kept so far, with the record it publishes, if any, added,
   * is the account of the whole call.
   */
  twostate predicate FinalPassKept(e: Entry, inode: Inode, read: ContextRead, crypto: Crypto,
                                   racers: seq<CryptInfo>, pool: set<object>, next: int,
                                   dropped: seq<CryptInfo>, droppedKeys: seq<Key?>, o: Attempt)
    reads inode, inode.cryptInfo, crypto, pool, e.slot, set x | x in dropped
    requires old(Kept(e, inode, read, crypto, racers, pool, next, dropped, droppedKeys))
    requires o.CacheHit? || o.Installed? || o.Exited? || o.Bug?
    requires o.CacheHit? <==> old(CachedGood(inode.cryptInfo))
    requires o.CacheHit? ==> inode.cryptInfo == old(inode.cryptInfo) && crypto.liveTfms == old(crypto.liveTfms)
    requires !o.CacheHit? ==> old(inode.cryptInfo) == null
    requires o.Exited? || o.Bug? ==> inode.cryptInfo == null && crypto.liveTfms == old(crypto.liveTfms)
    requires o.Installed? ==>
               inode.cryptInfo != null && fresh(inode.cryptInfo) && crypto.liveTfms == old(crypto.liveTfms) + 1
    requires crypto.liveReqs == old(crypto.liveReqs)
    requires forall i :: 0 <= i < |dropped| ==>
               !dropped[i].live && dropped[i].keyringKey == old(dropped[i].keyringKey)
    requires e.slot != null ==> e.slot.keyringKey == old(e.slot.keyringKey)
    ensures Account(e, o, inode, read, crypto, racers, dropped, droppedKeys)
  {
    true
  }

  /**
   * One pass from the retry label, with the account kept across passes: a pass that goes round
   * again keeps Kept, with the record it dropped added; the pass that returns leaves the account of
   * the whole call, against the state at the retry label. Every key's references move only by the
   * record dropped and the record published.
   */
  method RetryPass(inode: Inode, keyPrefix: Option<string>, read: ContextRead, keyring: map<string, Key>,
                   crypto: Crypto, racers: seq<CryptInfo>, ghost pool: set<object>, ghost e: Entry, next: nat,
                   ghost dropped: seq<CryptInfo>, ghost droppedKeys: seq<Key?>)
      returns (o: Attempt, ghost c: Choices, nextAfter: nat, ghost droppedAfter: seq<CryptInfo>,
               ghost droppedKeysAfter: seq<Key?>)
    requires Kept(e, inode, read, crypto, racers, pool, next, dropped, droppedKeys)
    modifies inode`cryptInfo, crypto`liveTfms, crypto`liveReqs, keyring.Values, pool
    ensures forall i :: 0 <= i < |racers| ==> racers[i].keyringKey == old(racers[i].keyringKey)
    ensures !o.Invalidated? ==> droppedAfter == dropped && droppedKeysAfter == droppedKeys
    ensures o.Invalidated? ==> old(inode.cryptInfo) != null && inode.cryptInfo == null && nextAfter == next
    ensures o.LostRace? ==> nextAfter == next + 1
    ensures o.LostRace? || o.Invalidated? ==>
              !e.good && Kept(e, inode, read, crypto, racers, pool, nextAfter, droppedAfter, droppedKeysAfter)
    // the pass that returns
    ensures o.LostRace? || o.Invalidated? || (
              && inode.Valid()
              && (o.Exited? || o.Bug? ==> inode.cryptInfo == null)
              && (fresh(inode.cryptInfo) <==> o.Installed?)
              && (o.Installed? ==> BuiltFrom(inode.cryptInfo, inode, read, keyPrefix, keyring, crypto.backend))
              && (!o.CacheHit? ==> PassOutcome(o, inode, read, keyPrefix, keyring, crypto.backend, c))
              && (o.CacheHit? ==>
                    inode.cryptInfo == old(inode.cryptInfo) && unchanged(old(Footprint(inode.cryptInfo))))
              && Account(e, o, inode, read, crypto, racers, dropped, droppedKeys))
    ensures forall k: Key :: old(allocated(k)) ==>
              && k.refs == old(k.refs) - multiset(droppedKeysAfter)[k] + multiset(droppedKeys)[k]
                           + (if o.Installed? && k == inode.cryptInfo.keyringKey then 1 else 0)
              && k.readers == old(k.readers)
  {
    nextAfter, droppedAfter, droppedKeysAfter := next, dropped, droppedKeys;
    var rawKey;
    o, rawKey, c := GetCryptInfoAttempt(inode, keyPrefix, read, keyring, crypto, racers, next);
    if o.LostRace? {
      nextAfter := next + 1;
      assert RaceLostKept(e, inode, read, crypto, racers, pool, next, nextAfter, dropped, droppedKeys);
    } else if o.Invalidated? {
      ghost var gone, goneKey := old(inode.cryptInfo), old(inode.cryptInfo.keyringKey);
      assert DroppedKept(e, inode, read, crypto, racers, pool, next, dropped, droppedKeys, gone, goneKey);
      droppedAfter, droppedKeysAfter := dropped + [gone], droppedKeys + [goneKey];
    } else {
      assert FinalPassKept(e, inode, read, crypto, racers, pool, next, dropped, droppedKeys, o);
    }
  }

  /**
   * The passes from the retry label until one returns. A pass that drops an invalidated record or
   * loses the race to the next of racers goes round again; once racers are used up a pass can no
   * longer lose, so the retries end. dropped lists the records dropped on the way, with the keyring
   * keys they held in droppedKeys.
   */
  method RetryLoop(inode: Inode, keyPrefix: Option<string>, read: ContextRead, keyring: map<string, Key>,
                   crypto: Crypto, racers: seq<CryptInfo>, ghost pool: set<object>)
      returns (o: Attempt, ghost c: Choices, ghost dropped: seq<CryptInfo>, ghost droppedKeys: seq<Key?>)
    requires inode.Valid() && RacersFit(racers, inode.cryptInfo)
    requires InPool(inode.cryptInfo, pool) && forall i :: 0 <= i < |racers| ==> InPool(racers[i], pool)
    modifies inode`cryptInfo, crypto`liveTfms, crypto`liveReqs, keyring.Values, pool
    ensures forall i :: 0 <= i < |racers| ==> racers[i].keyringKey == old(racers[i].keyringKey)
    ensures inode.Valid()
    ensures crypto.liveReqs == old(crypto.liveReqs)
    ensures o.CacheHit? || o.Installed? || o.Exited? || o.Bug?
    ensures o.Exited? || o.Bug? ==> inode.cryptInfo == null
    ensures || inode.cryptInfo == null || inode.cryptInfo == old(inode.cryptInfo)
            || inode.cryptInfo in racers || fresh(inode.cryptInfo)
    ensures fresh(inode.cryptInfo) <==> o.Installed?
    ensures fresh(inode.cryptInfo) ==> BuiltFrom(inode.cryptInfo, inode, read, keyPrefix, keyring, crypto.backend)
    ensures old(CachedGood(inode.cryptInfo)) ==>
              o.CacheHit? && inode.cryptInfo == old(inode.cryptInfo) && unchanged(old(Footprint(inode.cryptInfo)))
              && dropped == []
    ensures !old(CachedGood(inode.cryptInfo)) ==>
              if o.CacheHit?
              then inode.cryptInfo in racers && ChooseContext(read, inode.dummyEnabled, inode.encrypted).UseContext?
              else PassOutcome(o, inode, read, keyPrefix, keyring, crypto.backend, c)
    ensures Account(Entry(old(inode.cryptInfo),
                          old(if inode.cryptInfo == null then null else inode.cryptInfo.keyringKey),
                          old(CachedGood(inode.cryptInfo)), old(crypto.liveTfms), old(crypto.liveReqs)),
                    o, inode, read, crypto, racers, dropped, droppedKeys)
    // every key has the references it had, less one for each dropped record that held it, plus one
    // if it is the key of the record published
    ensures forall k: Key :: old(allocated(k)) ==>
              && k.refs == old(k.refs) - multiset(droppedKeys)[k]
                           + (if o.Installed? && k == inode.cryptInfo.keyringKey then 1 else 0)
              && k.readers == old(k.readers)
  {
    ghost var e := Entry(inode.cryptInfo, if inode.cryptInfo == null then null else inode.cryptInfo.keyringKey,
                         CachedGood(inode.cryptInfo), crypto.liveTfms, crypto.liveReqs);
    var next := 0;
    dropped, droppedKeys := [], [];
    while true
      invariant Kept(e, inode, read, crypto, racers, pool, next, dropped, droppedKeys)
      // until a pass returns, a good entry record sits in the slot as it was
      invariant e.good ==> unchanged(old(Footprint(inode.cryptInfo)))
      invariant forall i :: 0 <= i < |racers| ==> racers[i].keyringKey == old(racers[i].keyringKey)
      invariant forall k: Key :: old(allocated(k)) ==>
                  k.refs == old(k.refs) - multiset(droppedKeys)[k] && k.readers == old(k.readers)
      decreases |racers| - next, if inode.cryptInfo == null then 0 else 1
    {
      var nextAfter;
      ghost var droppedAfter, droppedKeysAfter;
      o, c, nextAfter, droppedAfter, droppedKeysAfter :=
        RetryPass(inode, keyPrefix, read, keyring, crypto, racers, pool, e, next, dropped, droppedKeys);
      if !o.LostRace? && !o.Invalidated? {
        break;
      }
      next, dropped, droppedKeys := nextAfter, droppedAfter, droppedKeysAfter;
    }
  }
}
