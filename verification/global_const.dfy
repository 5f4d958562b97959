/** The buffer sizes and concurrency bounds shared by the pack and unpack
    pipelines. */
module Global {

  /** Bytes of plain text handed to one AES chunk worker. */
  const AESBufferSize: nat := 128
  /** Bytes of plain text handed to one DES or 3DES chunk worker. */
  const DESBufferSize: nat := 128
  /** Bytes of plain text per RSA packet when packing. */
  const RSAPacketSize: nat := 64
  /** Bytes of cipher text per RSA packet when unpacking. */
  const RSAUnpackSize: nat := 128
  /** Bytes handed to one Base64 chunk worker. */
  const Base64BufferSize: nat := 128
  /** How many files the confined variants process at once. */
  const ConfineFiles: nat := 5
  /** How many chunks of one file the confined variants transform at once. */
  const ConfineBuffers: nat := 8192

  /** A full AES buffer is a whole number of 16-byte AES blocks and a full DES
      buffer a whole number of 8-byte DES blocks, so only a file's last chunk
      is ever padded; an RSA plain-text packet is smaller than the packet
      unpacking reads. */
  lemma BufferSizesFitBlocks()
    ensures AESBufferSize % 16 == 0 && DESBufferSize % 8 == 0
    ensures RSAPacketSize < RSAUnpackSize
  {
  }
}
