/** The configuration constants of dbformat.h. */
module Config {

  const NUM_LEVELS := 7
}
