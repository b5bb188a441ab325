/**
 * The records of fs/crypto/keyinfo.c: the encryption context read from an inode, the cached
 * struct fscrypt_info, and the inode's i_crypt_info slot.
 */
module KeyInfoTypes {
  import opened FscryptConsts
  import opened CryptoApi
  import opened Keyring

  /** struct fscrypt_context */
  datatype Context = Context(
    format: int,
    contentsMode: int,
    filenamesMode: int,
    flags: int,
    descriptor: Descriptor,
    nonce: Block)

  /** What s_cop->get_context(inode, &ctx, sizeof(ctx)) returned: a byte count or a negated errno. */
  datatype ContextRead = ContextRead(res: int, ctx: Context)

  datatype FileKind = Regular | Directory | Symlink | OtherKind

  /**
   * The context faked for an unencrypted inode in dummy-encryption mode: zeroed, format V1, XTS
   * contents, CTS file names and a descriptor of 0x42 bytes.
   */
  const DummyContext := Context(
    FS_ENCRYPTION_CONTEXT_FORMAT_V1,
    FS_ENCRYPTION_MODE_AES_256_XTS,
    FS_ENCRYPTION_MODE_AES_256_CTS,
    0,
    [0x42, 0x42, 0x42, 0x42, 0x42, 0x42, 0x42, 0x42],
    [0, 0, 0, 0, 0, 0, 0, 0, 0, 0, 0, 0, 0, 0, 0, 0])

  /** struct fscrypt_info */
  class CryptInfo {
    const flags: int
    const dataMode: int
    const filenameMode: int
    const masterKey: Descriptor
    var ctfm: Tfm?
    var keyringKey: Key?
    /** false once kmem_cache_free has returned the record. */
    var live: bool

    /** kmem_cache_alloc followed by the field assignments from the context. */
    constructor FromContext(ctx: Context)
      ensures flags == ctx.flags && dataMode == ctx.contentsMode
      ensures filenameMode == ctx.filenamesMode && masterKey == ctx.descriptor
      ensures ctfm == null && keyringKey == null && live
    {
      flags := ctx.flags;
      dataMode := ctx.contentsMode;
      filenameMode := ctx.filenamesMode;
      masterKey := ctx.descriptor;
      ctfm := null;
      keyringKey := null;
      live := true;
    }
  }

  /** The objects a record owns or refers to, which destroying it touches. */
  function Footprint(ci: CryptInfo?): set<object>
    reads ci
  {
    if ci == null then {}
    else {ci} + (if ci.ctfm == null then {} else {ci.ctfm})
              + (if ci.keyringKey == null then {} else {ci.keyringKey})
  }

  /** A record fit to sit in a slot: not freed, with a live cipher transform. */
  predicate Usable(ci: CryptInfo)
    reads ci, ci.ctfm
  {
    ci.live && ci.ctfm != null && ci.ctfm.live
  }

  /** The part of struct inode this core uses. */
  class Inode {
    const kind: FileKind
    /** s_cop->is_encrypted(inode) */
    const encrypted: bool
    /** fscrypt_dummy_context_enabled(inode) */
    const dummyEnabled: bool
    /** inode->i_crypt_info */
    var cryptInfo: CryptInfo?

    constructor (kind: FileKind, encrypted: bool, dummyEnabled: bool)
      ensures this.kind == kind && this.encrypted == encrypted
      ensures this.dummyEnabled == dummyEnabled && cryptInfo == null
    {
      this.kind := kind;
      this.encrypted := encrypted;
      this.dummyEnabled := dummyEnabled;
      cryptInfo := null;
    }

    ghost predicate Valid()
      reads this, cryptInfo, if cryptInfo == null then null else cryptInfo.ctfm
    {
      cryptInfo != null ==> Usable(cryptInfo)
    }

    /** cmpxchg(&inode->i_crypt_info, expected, desired), one atomic step. */
    method Cmpxchg(expected: CryptInfo?, desired: CryptInfo?) returns (prev: CryptInfo?)
      modifies this`cryptInfo
      ensures prev == old(cryptInfo)
      ensures cryptInfo == if prev == expected then desired else prev
    {
      prev := cryptInfo;
      if prev == expected {
        cryptInfo := desired;
      }
    }
  }

  /**
   * Every key of the set has the reference count it had, give or take one gained and one lost, and
   * no payload read-lock of the set is left held or released twice.
   */
  twostate predicate KeysMoved(keys: set<Key>, new gained: Key?, lost: Key?)
    reads keys
  {
    forall k :: k in keys ==>
      && k.refs == old(k.refs) + (if k == gained then 1 else 0) - (if k == lost then 1 else 0)
      && k.readers == old(k.readers)
  }

  /**
   * put_crypt_info has run on ci: the keyring reference it held is dropped, its transform is freed
   * and the record itself is freed.
   */
  twostate predicate Destroyed(ci: CryptInfo, crypto: Crypto)
    reads ci, ci.ctfm, ci.keyringKey, crypto
  {
    && !ci.live
    && ci.ctfm == old(ci.ctfm) && ci.keyringKey == old(ci.keyringKey)
    && (ci.keyringKey != null ==>
          ci.keyringKey.refs == old(ci.keyringKey.refs) - 1
          && ci.keyringKey.readers == old(ci.keyringKey.readers))
    && (ci.ctfm != null ==> !ci.ctfm.live)
    && crypto.liveTfms == old(crypto.liveTfms) - (if ci.ctfm != null then 1 else 0)
  }
}
