/** The ASCII character classes shared by base64 and the password generator. */
module Ascii {

  const Upper: string := "ABCDEFGHIJKLMNOPQRSTUVWXYZ"
  const Lower: string := "abcdefghijklmnopqrstuvwxyz"
  const Digits: string := "0123456789"

  predicate IsUpper(c: char) { 'A' <= c <= 'Z' }
  predicate IsLower(c: char) { 'a' <= c <= 'z' }
  predicate IsDigit(c: char) { '0' <= c <= '9' }

  predicate IsAlphanumeric(c: char) {
    IsUpper(c) || IsLower(c) || IsDigit(c)
  }

  /** Each class string lists its letters in code order. */
  lemma ClassesInCodeOrder()
    ensures |Upper| == 26 && |Lower| == 26 && |Digits| == 10
    ensures forall i :: 0 <= i < 26 ==> Upper[i] == ('A' as int + i) as char
    ensures forall i :: 0 <= i < 26 ==> Lower[i] == ('a' as int + i) as char
    ensures forall i :: 0 <= i < 10 ==> Digits[i] == ('0' as int + i) as char
  {
  }
}
