/** src/main/tunnel/nt_fec.h: what both kinds of forward error correction share. */
module FecHeaders {
  const E_FEC_INTERNAL_ERROR := 100001
  const E_FEC_INVALID_HEADER := 100002
  const E_FEC_DECODER_BUFFER_FULL := 100003

  /** nt_fec_header_t, without the payload size, which the decoders do not read. */
  datatype FecHeader = FecHeader(tag: nat, N: nat, K: nat, blockId: nat, blockIndex: nat)
}
