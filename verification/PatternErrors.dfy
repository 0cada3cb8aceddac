/** The ways in which a template or a URL pattern can be malformed (var_pattern.h). */
module PatternErrors {
  datatype PatternErr = OK | ILL_TOKEN | ILL_BEGIN | ILL_END | UNMATCH | NONE_FIELD | UNKNOWN
}
