/** Fixed-width integers, ESP-IDF status codes and the small wrappers the
    components share. */
module EspTypes {

  const U8_LIMIT: int := 0x100
  const U16_LIMIT: int := 0x1_0000
  const U32_LIMIT: int := 0x1_0000_0000

  type U8 = x: int | 0 <= x < U8_LIMIT
  type U16 = x: int | 0 <= x < U16_LIMIT
  type U32 = x: int | 0 <= x < U32_LIMIT

  /** An esp_err_t without a constructor of its own: not ESP_OK (0),
      ESP_FAIL (-1), ESP_ERR_NO_MEM (0x101), ESP_ERR_INVALID_ARG (0x102),
      ESP_ERR_INVALID_STATE (0x103), ESP_ERR_NOT_FOUND (0x105) or
      ESP_ERR_INVALID_VERSION (0x10A). */
  type ErrCode = x: int | x != 0 && x != -1 && x != 0x101 && x != 0x102
                        && x != 0x103 && x != 0x105 && x != 0x10A witness 1

  /** The esp_err_t values the core returns. Errors reported by hardware
      drivers the model does not see are carried as `ErrOther`, so that
      every esp_err_t value has exactly one representation. */
  datatype Status =
    | Ok                 // ESP_OK
    | ErrFail            // ESP_FAIL
    | ErrNoMem           // ESP_ERR_NO_MEM
    | ErrInvalidArg      // ESP_ERR_INVALID_ARG
    | ErrInvalidState    // ESP_ERR_INVALID_STATE
    | ErrNotFound        // ESP_ERR_NOT_FOUND
    | ErrInvalidVersion  // ESP_ERR_INVALID_VERSION
    | ErrOther(code: ErrCode)

  /** A C pointer that may be NULL. */
  datatype Option<+T> = None | Some(value: T)

  /** A value, or the status that replaced it. */
  datatype Result<+T> = Success(value: T) | Failure(error: Status)
}
