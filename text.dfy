/** Character-level helpers: ASCII case folding, Rails' `blank?`, decimal digits. */
module Text {

  predicate IsUpper(c: char) { 'A' <= c <= 'Z' }

  /** Lower-case of one character; only ASCII letters change. */
  function Lower(c: char): (d: char)
    ensures !IsUpper(d)
    ensures IsUpper(c) ==> d as int == c as int + 32
    ensures !IsUpper(c) ==> d == c
  {
    if IsUpper(c) then (c as int + 32) as char else c
  }

  /** `str.mb_chars.downcase.to_s` (and SQL `lower`), restricted to ASCII. */
  function Downcase(s: string): (r: string)
    ensures |r| == |s|
    ensures forall i :: 0 <= i < |s| ==> r[i] == Lower(s[i])
    decreases |s|
  {
    if s == [] then [] else Downcase(s[..|s| - 1]) + [Lower(s[|s| - 1])]
  }

  /** Downcasing twice is downcasing once. */
  lemma DowncaseIdempotent(s: string)
    ensures Downcase(Downcase(s)) == Downcase(s)
  {
  }

  /** `[[:space:]]` on ASCII: space, tab, newline, vertical tab, form feed, return. */
  predicate IsSpace(c: char) {
    c == ' ' || 9 <= c as int <= 13
  }

  /** Rails' `String#blank?`: empty or made only of white space. */
  predicate IsBlank(s: string) {
    forall i :: 0 <= i < |s| ==> IsSpace(s[i])
  }

  predicate NoNewline(s: string) {
    '\n' !in s
  }

  predicate IsDigit(c: char) { '0' <= c <= '9' }

  predicate AllDigits(s: string) {
    forall i :: 0 <= i < |s| ==> IsDigit(s[i])
  }

  /** `String#to_i` of a string of decimal digits. */
  function DigitsValue(s: string): nat
    requires AllDigits(s)
    decreases |s|
  {
    if s == [] then 0
    else 10 * DigitsValue(s[..|s| - 1]) + (s[|s| - 1] as int - '0' as int)
  }
}
