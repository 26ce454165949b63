/**
 * led_state_set in main.c: a table from LED state to a 24-bit colour word
 * for the RGB LED, from which the red pin takes bits 0-7 and the green pin
 * bits 8-15 (lit when nonzero).
 */
module Led {

  /** The LED states. */
  const LED_OFF: nat := 0
  const LED_BOOTING: nat := 1
  const LED_FLASHING: nat := 2
  const LED_FLASHING_ALT: nat := 3
  const LED_STARTING: nat := 4

  /** What led_state_set drives: the red and green pins and the colour word
      handed to the RGB LED. */
  datatype LedOutput = LedOutput(red: bool, green: bool, colour: bv32)

  /** The colour word of a state, a 24-bit 0xRRGGBB value; OFF and any
      unknown state are dark, the four named states are not. */
  function Colour(state: nat): (c: bv32)
    ensures c >> 24 == 0
    ensures c == 0 <==> !(state == LED_BOOTING || state == LED_FLASHING
                          || state == LED_FLASHING_ALT || state == LED_STARTING)
  {
    if state == LED_BOOTING then 0x00ffff
    else if state == LED_FLASHING then 0x0000ff
    else if state == LED_FLASHING_ALT then 0x00ff00
    else if state == LED_STARTING then 0xffff00
    else 0x0
  }

  /** `!!(uint8_t)val`: the low byte is nonzero. */
  predicate LowByteSet(val: bv32) {
    val & 0xFF != 0
  }

  /** led_state_set. Red is lit while booting and flashing; green while
      booting, in the alternate flashing phase and when starting; neither
      when off or for any other state; the colour word is dark exactly when
      neither pin is lit. */
  function LedStateSet(state: nat): (out: LedOutput)
    ensures out.red <==> state == LED_BOOTING || state == LED_FLASHING
    ensures out.green <==> state == LED_BOOTING || state == LED_FLASHING_ALT || state == LED_STARTING
    ensures out.colour == 0 <==> !out.red && !out.green
  {
    var val := Colour(state);
    LedOutput(LowByteSet(val), LowByteSet(val >> 8), val)
  }
}
