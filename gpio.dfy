/**
 * The pin encoding of main.h: CREATE_IO_IMPL packs a port letter and a pin
 * number into one 32-bit value (port in bits 8 and up, pin below), and the
 * inline gpio_port_pin_get unpacks it into the pin number and the address
 * of the port's register block.
 */
module Gpio {

  /** uint32_t arithmetic wraps here. */
  const WORD: nat := 0x1_0000_0000
  /** Register block of port A (STM32F1); the ports follow 0x400 apart. */
  const GPIOA_BASE: nat := 0x4001_0800
  const PORT_STRIDE: nat := 0x400
  /** 'A' in ASCII. */
  const PORT_A: nat := 0x41

  /** CREATE_IO_IMPL(port, pin), as the uint32_t it is stored in: the port
      letter above the low byte, the pin in it, as long as both fit. */
  function CreateIo(port: nat, pin: nat): (io: nat)
    ensures io < WORD
    ensures pin < 256 && port * 256 + pin < WORD ==> io / 256 == port && io % 256 == pin
  {
    (port * 256 + pin) % WORD
  }

  /** The decoded port: the address of its register block, and the pin. */
  datatype PortPin = PortPin(port: nat, pin: nat)

  /** The port index of an encoded value: its port letter minus 'A', in
      uint32_t arithmetic (a letter below 'A' wraps around). */
  function PortIndex(io: nat): (index: nat)
    requires io < WORD
    ensures index < WORD
    ensures io / 256 >= PORT_A ==> index == io / 256 - PORT_A
    ensures io / 256 < PORT_A ==> index == WORD - (PORT_A - io / 256)
  {
    (io / 256 - PORT_A) % WORD
  }

  /** The register block of the port with the given index. */
  function PortAddress(index: nat): (address: nat)
    ensures address < WORD
    ensures index < 16 ==> address == GPIOA_BASE + index * PORT_STRIDE
  {
    (GPIOA_BASE + index * PORT_STRIDE) % WORD
  }

  /** gpio_port_pin_get. The pin is the encoded value modulo 32, so always
      below 32; the port is the register block of the port index. */
  function PortPinGet(io: nat): (r: PortPin)
    requires io < WORD
    ensures r.pin < 32 && r.pin == io % 32
    ensures r.port < WORD
  {
    PortPin(PortAddress(PortIndex(io)), io % 32)
  }

  /** Decoding an encoded port letter and pin gives back the pin and the
      register block of port `port - 'A'`, as long as the pin is below 32
      and the encoding fits in 32 bits. */
  lemma IoRoundTrip(port: nat, pin: nat)
    requires PORT_A <= port && pin < 32
    requires port * 256 + pin < WORD
    ensures PortIndex(CreateIo(port, pin)) == port - PORT_A
    ensures PortPinGet(CreateIo(port, pin)) == PortPin(PortAddress(port - PORT_A), pin)
  {
    var io := CreateIo(port, pin);
    assert io == 32 * (port * 8) + pin;
    assert io % 32 == pin;
  }

  /** A pin number of 32 or more does not survive the encoding: pin 32 of
      port A decodes as pin 0 of port A. */
  lemma PinOutOfRange()
    ensures PortPinGet(CreateIo(PORT_A, 32)) == PortPin(PortAddress(0), 0)
  {
    assert CreateIo(PORT_A, 32) == PORT_A * 256 + 32;
  }
}
