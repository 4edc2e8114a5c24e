/** Build-time configuration shared by both panel variants: pin numbers,
    SPI clock divisors and the panel resolution (SDL_st7789config.h). */
module Config {

  /** BCM GPIO pin driving the panel's data/command select line. */
  const DataControlPin: nat := 6
  /** BCM GPIO pin wired to the panel's reset line. */
  const ResetPin: nat := 5
  /** BCM GPIO pin switching the backlight (st7789 variant only). */
  const BacklightPin: nat := 13
  /** Operating SPI clock divisor: bus speed is the 256 MHz core clock divided by this. */
  const SpiBusClockDivisor: bv32 := 20
  /** Divisor the panel initialisation runs at, whatever the operating speed. */
  const InitClockDivisor: bv32 := 34

  const DisplayWidth: nat := 240
  const DisplayHeight: nat := 240
}
