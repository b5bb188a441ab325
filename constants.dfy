/** Kernel error numbers, as returned negated by the routines of this model. */
module Errno {
  const ENOMEM := 12
  const EBUSY := 16
  const EINVAL := 22
  const EOPNOTSUPP := 95
  const EINPROGRESS := 115
  const ENOKEY := 126
  const EKEYEXPIRED := 127
  const EKEYREVOKED := 128

  /** A kernel status: 0 or a negated errno. */
  type Status = x: int | x <= 0
}

/** Sizes and identifiers of the fscrypt on-disk and keyring formats (fscrypt_private.h). */
module FscryptConsts {
  /** A byte of a key, a descriptor or a payload. */
  newtype byte = x: int | 0 <= x < 256

  const FS_KEY_DESCRIPTOR_SIZE := 8
  const FS_KEY_DERIVATION_NONCE_SIZE := 16
  const FS_AES_128_ECB_KEY_SIZE := 16
  const FS_AES_256_CTS_KEY_SIZE := 32
  const FS_AES_256_XTS_KEY_SIZE := 64
  const FS_MAX_KEY_SIZE := 64

  const FS_ENCRYPTION_MODE_AES_256_XTS := 1
  const FS_ENCRYPTION_MODE_AES_256_CTS := 4
  const FS_ENCRYPTION_CONTEXT_FORMAT_V1 := 1

  /** Default keyring prefix of every fscrypt master key. */
  const FS_KEY_DESC_PREFIX: string := "fscrypt:"

  /** sizeof(struct fscrypt_key): u32 mode, u8 raw[FS_MAX_KEY_SIZE], u32 size. */
  const FSCRYPT_KEY_PAYLOAD_SIZE := 4 + FS_MAX_KEY_SIZE + 4
  /** sizeof(struct fscrypt_context): format, two modes, flags, descriptor, nonce. */
  const FSCRYPT_CONTEXT_SIZE := 4 + FS_KEY_DESCRIPTOR_SIZE + FS_KEY_DERIVATION_NONCE_SIZE

  /** The 8-byte master-key descriptor of an encryption context. */
  type Descriptor = s: seq<byte> | |s| == FS_KEY_DESCRIPTOR_SIZE
    witness [0, 0, 0, 0, 0, 0, 0, 0]

  /** One 16-byte AES block; also the per-inode derivation nonce and the AES-128 deriving key. */
  type Block = s: seq<byte> | |s| == 16
    witness [0, 0, 0, 0, 0, 0, 0, 0, 0, 0, 0, 0, 0, 0, 0, 0]

  datatype Option<T> = None | Some(value: T)
}
