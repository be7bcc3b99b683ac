/** Game-wide tuning constants of the karuta client (application/src/config/gameConfig.js). */
module GameConfig {
  /** Score coefficient: a correct take after `e` milliseconds is worth K / e^2 before the combo bonus. */
  const K: real := 5000000000.0
  /** Points subtracted for every mistaken take. */
  const PENALTY: real := 1000.0
  /** Extra multiplier gained per consecutive correct take. */
  const COMBO_BONUS_STEP: real := 1.5
  /** Whether subtitles follow a real audio element (otherwise a simulated clock drives them). */
  const ENABLE_AUDIO: bool := false
  /** Seconds added to the simulated subtitle clock by one timer tick (the 100 ms interval). */
  const SIMULATION_STEP: real := 0.1
}
