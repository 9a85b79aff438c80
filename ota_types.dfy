/** Basic values shared by the OTA engine: bytes, optional values, partitions. */
module OtaTypes {

  newtype byte = x: int | 0 <= x < 256

  datatype Option<T> = None | Some(value: T)

  /** A flash partition, identified by its table entry (the engine only compares them). */
  type PartitionId = nat
}

/**
 * Layout of an ESP-IDF application image as far as the update engine reads it:
 * the image header, the first segment header, then the application descriptor
 * `esp_app_desc_t`, whose `version` field is the firmware version string.
 */
module ImageFormat {
  import opened OtaTypes

  /** BUFFSIZE: the most bytes one read delivers into `ota_write_data`. */
  const BUFFSIZE: nat := 1024

  /** What a positive esp_http_client_read leaves in `ota_write_data`: at least one byte, at most BUFFSIZE. */
  type Chunk = b: seq<byte> | 0 < |b| <= BUFFSIZE witness [0]

  const IMAGE_HEADER_SIZE: nat := 24     // sizeof(esp_image_header_t)
  const SEGMENT_HEADER_SIZE: nat := 8    // sizeof(esp_image_segment_header_t)
  const APP_DESC_SIZE: nat := 256        // sizeof(esp_app_desc_t)
  const VERSION_OFFSET: nat := 16        // offset of `version` inside esp_app_desc_t
  const VERSION_LEN: nat := 32           // sizeof(esp_app_desc_t.version)

  /** Offset of the application descriptor inside the image. */
  const APP_DESC_OFFSET: nat := IMAGE_HEADER_SIZE + SEGMENT_HEADER_SIZE

  /** A first chunk of at most this many bytes is rejected as too short. */
  const MIN_FIRST_CHUNK: nat := APP_DESC_OFFSET + APP_DESC_SIZE

  /** The fixed-width `version` field of an application descriptor. */
  type Version = v: seq<byte> | |v| == VERSION_LEN witness seq(32, _ => 0)

  /** The version field of the descriptor copied out of the first chunk. */
  function ExtractVersion(chunk: seq<byte>): (v: Version)
    requires |chunk| > MIN_FIRST_CHUNK
    ensures forall k :: 0 <= k < VERSION_LEN ==> v[k] == chunk[APP_DESC_OFFSET + VERSION_OFFSET + k]
  {
    chunk[APP_DESC_OFFSET + VERSION_OFFSET .. APP_DESC_OFFSET + VERSION_OFFSET + VERSION_LEN]
  }
}
