/**
 * Shared vocabulary of the model: optional values (a C pointer that may be
 * null), the error codes the firmware returns, and the fixed-width integer
 * ranges it relies on.
 */
module Common {

  /** A value that may be absent; `None` stands for a C null pointer. */
  datatype Option<T> = None | Some(value: T)

  /**
   * The `esp_err_t` results the modelled code distinguishes. Every failure
   * reported by flash or by the key-value store is passed through unchanged
   * by the firmware; the model folds those into `StorageError`.
   */
  datatype Status =
    | Ok            // ESP_OK
    | InvalidArg    // ESP_ERR_INVALID_ARG
    | NotFound      // ESP_ERR_NOT_FOUND
    | InvalidState  // ESP_ERR_INVALID_STATE
    | InvalidSize   // ESP_ERR_INVALID_SIZE
    | StorageError  // any error passed through from flash or NVS

  const U32_LIMIT: int := 0x1_0000_0000
  const UINT32_MAX: int := 0xFFFF_FFFF
  const INT32_MIN: int := -0x8000_0000
  const INT32_MAX: int := 0x7FFF_FFFF

  /** An unsigned 32-bit quantity. */
  newtype u32 = x: int | 0 <= x < 0x1_0000_0000

  /** A signed 32-bit quantity. */
  newtype i32 = x: int | -0x8000_0000 <= x < 0x8000_0000

  function Min(a: int, b: int): int { if a <= b then a else b }
  function Max(a: int, b: int): int { if a >= b then a else b }
}
