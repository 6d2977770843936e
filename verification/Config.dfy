/** Limits of the server, from include/common/config.h and include/net/buffer_utils.h. */
module Config {
  const MAX_BUFFER_SIZE: nat := 4194304
  const INITIAL_BUFFER_SIZE: nat := 131072
  const PREPEND_THRESHOLD: nat := 262144
  const READ_CHUNK_SIZE: nat := 65536

  const MAX_HTTP_HEADER_SIZE: nat := 131072
  const MAX_HTTP_BODY_SIZE: nat := 268435456
  const MAX_HTTP_PIPELINE: nat := 100

  /** Largest payload the length-prefix decoder accepts. */
  const MAX_FRAME_SIZE: nat := 4194304
  /** Largest response the client accepts. */
  const MAX_RESPONSE_SIZE: nat := 10485760
}
