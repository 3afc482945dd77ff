/** What ends a C string. */
module CStrings {
  const NUL: char := '\0'
}
