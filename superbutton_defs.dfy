/**
 * Types and constants of the SuperButton library, as its headers declare them:
 * the tick and integer widths, the timing constants, the button level, the
 * click type, the pull direction, the per-button configuration and the event
 * delivered to the caller.
 */
module SuperButtonDefs {

  /** TickType_t on the target: an unsigned 32-bit FreeRTOS tick count. */
  const TICK_MODULUS: int := 0x1_0000_0000
  type Tick = t: int | 0 <= t < TICK_MODULUS

  /** uint8_t and uint16_t. */
  type U8 = x: int | 0 <= x < 0x100
  type U16 = x: int | 0 <= x < 0x1_0000

  /** portMAX_DELAY: the receive timeout that blocks without limit. */
  const PORT_MAX_DELAY: Tick := 0xFFFF_FFFF

  /**
   * configTICK_RATE_HZ is a board setting outside the library; the model fixes
   * it at 1000 so that one tick is one millisecond.
   */
  const TICK_RATE_HZ: nat := 1000

  /** pdMS_TO_TICKS. */
  function MsToTicks(ms: nat): nat
  {
    ms * TICK_RATE_HZ / 1000
  }

  const DEBOUNCE_MS: nat := 25
  const MULTI_CLICK_GAP_MS: nat := 200
  const LONG_PRESS_START_GAP_MS: nat := 400
  /** The bounded wait the consumer task uses while some button is busy. */
  const BUSY_WAIT_MS: nat := 200

  const DEBOUNCE_TICKS: Tick := MsToTicks(DEBOUNCE_MS)
  const MULTI_CLICK_GAP_TICKS: Tick := MsToTicks(MULTI_CLICK_GAP_MS)
  const LONG_PRESS_START_GAP_TICKS: Tick := MsToTicks(LONG_PRESS_START_GAP_MS)
  const BUSY_WAIT_TICKS: Tick := MsToTicks(BUSY_WAIT_MS)

  /** button_state_t: Undef only before the first interrupt of a button. */
  datatype Level = Up | Down | Undef

  /**
   * super_button_click_type_t. The source gives the tags distinct bit values,
   * but never combines them, so a plain enumeration is enough.
   */
  datatype ClickType =
    | Empty
    | ButtonDown
    | ButtonUp
    | SingleClick
    | MultiClick
    | LongClick
    | LongPressStart

  /** super_button_pull_direction_t. */
  datatype PullDirection = PullUp | PullDown

  /** gpio_num_t. */
  type Pin = int

  /** The caller's `void *user_data`, as the pointer's value. */
  type UserData = nat

  /** super_button_button_t: one entry of the list given to superbutton_init. */
  datatype ButtonConfig = ButtonConfig(pin: Pin, userData: UserData)

  /** super_button_click_event_args_t: what the caller receives. */
  datatype ClickEvent = ClickEvent(
    pin: Pin,
    userData: UserData,
    clickType: ClickType,
    clickCount: U8,
    durationMs: nat)

  /** The two tags that report a confirmed level change. */
  predicate IsTransition(c: ClickType)
  {
    c == ButtonDown || c == ButtonUp
  }

  /** The four tags that report a classified gesture. */
  predicate IsClassification(c: ClickType)
  {
    c == SingleClick || c == MultiClick || c == LongClick || c == LongPressStart
  }
}
