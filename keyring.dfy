/**
 * The part of the kernel key-retention service that keyinfo.c relies on: keys of type "logon"
 * found by description, reference counted (key_put), read-locked (down_read/up_read on key->sem)
 * and checked for validity (key_validate).
 */
module Keyring {
  import opened Errno
  import opened FscryptConsts

  /**
   * A keyring key; this core reads its type and payload and observes its status flags, which stay
   * as they are for the duration of one call.
   */
  class Key {
    /** keyring_key->type == &key_type_logon */
    const isLogon: bool
    /** The user_key_payload bytes; datalen is their number. */
    const payload: seq<byte>
    const invalidated: bool
    const revoked: bool
    const dead: bool
    const expired: bool
    /**
     * What the keyring search reports for a usable key instead of returning it (0: the key is
     * returned), such as the error of a negatively instantiated key.
     */
    const searchError: Status
    /** References held on the key. */
    var refs: int
    /** Holders of the payload read-lock. */
    var readers: nat

    /** key_alloc with one reference; the flags are those the key has while this core uses it. */
    constructor (isLogon: bool, payload: seq<byte>, invalidated: bool, revoked: bool, dead: bool, expired: bool,
                 searchError: Status)
      ensures this.isLogon == isLogon && this.payload == payload
      ensures this.invalidated == invalidated && this.revoked == revoked
      ensures this.dead == dead && this.expired == expired
      ensures this.searchError == searchError
      ensures refs == 1 && readers == 0
    {
      this.isLogon := isLogon;
      this.payload := payload;
      this.invalidated, this.revoked, this.dead, this.expired := invalidated, revoked, dead, expired;
      this.searchError := searchError;
      refs, readers := 1, 0;
    }
  }

  /** key_validate: 0 for a usable key, otherwise the reason it is not. */
  function KeyValidate(k: Key): int {
    if k.invalidated then -ENOKEY
    else if k.revoked || k.dead then -EKEYREVOKED
    else if k.expired then -EKEYEXPIRED
    else 0
  }

  /** The flag test of fscrypt_get_encryption_info: INVALIDATED, REVOKED or DEAD. */
  predicate KeyFlagged(k: Key): (b: bool)
    // the flags are exactly the reasons key_validate gives apart from expiry
    ensures b <==> KeyValidate(k) == -ENOKEY || KeyValidate(k) == -EKEYREVOKED
    ensures KeyValidate(k) == 0 ==> !b
  {
    k.invalidated || k.revoked || k.dead
  }

  /** A little-endian u32 read from four payload bytes. */
  function Le32(b: seq<byte>): (v: int)
    requires |b| == 4
    ensures 0 <= v < 0x1_0000_0000
  {
    b[0] as int + 256 * (b[1] as int + 256 * (b[2] as int + 256 * b[3] as int))
  }

  /** struct fscrypt_key inside a payload of the right length: the raw key ... */
  function MasterRaw(p: seq<byte>): (raw: seq<byte>)
    requires |p| == FSCRYPT_KEY_PAYLOAD_SIZE
    ensures |raw| == FS_MAX_KEY_SIZE
  {
    p[4..4 + FS_MAX_KEY_SIZE]
  }

  /** ... and its size field. */
  function MasterSize(p: seq<byte>): int
    requires |p| == FSCRYPT_KEY_PAYLOAD_SIZE
  {
    Le32(p[4 + FS_MAX_KEY_SIZE..])
  }

  /**
   * The checks validate_user_key makes on a key it found, in their order: key type, payload length,
   * then the embedded key size. 0 when the key may be used for derivation.
   */
  function KeyCheck(k: Key): (r: int)
    ensures r == 0 <==> k.isLogon && |k.payload| == FSCRYPT_KEY_PAYLOAD_SIZE
                        && MasterSize(k.payload) == FS_AES_256_XTS_KEY_SIZE
    // a wrong payload length is the one -EINVAL; every other refusal is -ENOKEY
    ensures r == -EINVAL <==> k.isLogon && |k.payload| != FSCRYPT_KEY_PAYLOAD_SIZE
    ensures r == 0 || r == -EINVAL || r == -ENOKEY
  {
    if !k.isLogon then -ENOKEY
    else if |k.payload| != FSCRYPT_KEY_PAYLOAD_SIZE then -EINVAL
    else if MasterSize(k.payload) != FS_AES_256_XTS_KEY_SIZE then -ENOKEY
    else 0
  }

  datatype Lookup = Found(key: Key) | LookupError(err: int)

  /**
   * What the keyring search makes of a key filed under the description being looked up: a key that
   * key_validate rejects is reported with that reason, and a usable key with its own searchError;
   * 0 means the key is returned.
   */
  function SearchResult(k: Key): (r: Status)
    ensures r == 0 ==> KeyValidate(k) == 0
    ensures KeyValidate(k) != 0 ==> r == KeyValidate(k)
  {
    if KeyValidate(k) != 0 then KeyValidate(k) else k.searchError
  }

  /**
   * request_key(&key_type_logon, description, NULL): -ENOKEY when no key has the description,
   * the search's error for a key that is not returned, and otherwise the key with one more
   * reference taken.
   */
  method RequestKey(keyring: map<string, Key>, description: string) returns (r: Lookup)
    modifies if description in keyring then {keyring[description]} else {}
    ensures description !in keyring ==> r == LookupError(-ENOKEY)
    ensures description in keyring && SearchResult(keyring[description]) != 0 ==>
              r == LookupError(SearchResult(keyring[description]))
              && keyring[description].refs == old(keyring[description].refs)
    ensures description in keyring && SearchResult(keyring[description]) == 0 ==>
              r == Found(keyring[description]) && r.key.refs == old(r.key.refs) + 1
    ensures description in keyring ==> keyring[description].readers == old(keyring[description].readers)
  {
    if description !in keyring {
      return LookupError(-ENOKEY);
    }
    var k := keyring[description];
    var found := SearchResult(k);
    if found != 0 {
      return LookupError(found);
    }
    k.refs := k.refs + 1;
    r := Found(k);
  }

  /** key_put */
  method KeyPut(k: Key)
    modifies k`refs
    ensures k.refs == old(k.refs) - 1
  {
    k.refs := k.refs - 1;
  }

  /** down_read(&key->sem) */
  method DownRead(k: Key)
    modifies k`readers
    ensures k.readers == old(k.readers) + 1
  {
    k.readers := k.readers + 1;
  }

  /** up_read(&key->sem): only a holder releases the lock. */
  method UpRead(k: Key)
    requires k.readers > 0
    modifies k`readers
    ensures k.readers == old(k.readers) - 1
  {
    k.readers := k.readers - 1;
  }
}
