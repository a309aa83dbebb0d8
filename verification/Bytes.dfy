/** Bytes, and the few facts about streams of them that every component uses. */
module Bytes {

  /** A byte, written as the character with that code so that literals stay readable. */
  type byte = c: char | c as int < 256 witness '\0'

  type bytes = seq<byte>

  /** What a C string can hold. */
  ghost predicate NoNul(s: bytes) {
    '\0' !in s
  }

  /** isspace in the C locale. */
  predicate IsSpace(c: byte) {
    c == ' ' || '\t' <= c <= '\r'
  }

  lemma Spaces(c: byte)
    ensures IsSpace(c) <==> c in " \t\n\U{0B}\U{0C}\r"
  {
  }

  /** tolower in the C locale. */
  function ToLower(c: byte): byte {
    if 'A' <= c <= 'Z' then ((c as int) + 32) as char else c
  }

  /** The digits of numbers to the base 16. */
  const LOWER_DIGITS: bytes := "0123456789abcdef"
  const UPPER_DIGITS: bytes := "0123456789ABCDEF"

  ghost predicate IsHexDigit(c: byte) {
    c in LOWER_DIGITS || c in UPPER_DIGITS
  }

  const CAPITALS: bytes := "ABCDEFGHIJKLMNOPQRSTUVWXYZ"
  const SMALLS: bytes := "abcdefghijklmnopqrstuvwxyz"

  /** Each capital letter becomes the small one in the same place of the alphabet. */
  lemma LowerLetter(i: nat)
    requires i < 26
    ensures ToLower(CAPITALS[i]) == SMALLS[i]
  {
  }

  lemma Capital(c: byte)
    ensures c in CAPITALS <==> 'A' <= c <= 'Z'
  {
    if 'A' <= c <= 'Z' {
      assert c == CAPITALS[c as int - 'A' as int];
    }
  }

  lemma Small(c: byte)
    ensures c in SMALLS <==> 'a' <= c <= 'z'
  {
    if 'a' <= c <= 'z' {
      assert c == SMALLS[c as int - 'a' as int];
    }
  }

  /** Every other byte stays as it is. */
  lemma LowerOther(c: byte)
    ensures c !in CAPITALS ==> ToLower(c) == c
  {
    Capital(c);
  }

  /** All pieces of a stream, in order of arrival. */
  function Flatten(parts: seq<bytes>): bytes {
    if parts == [] then [] else parts[0] + Flatten(parts[1..])
  }

  lemma Regroup(x: bytes, y: bytes, z: bytes)
    ensures x + y + z == x + (y + z)
  {
  }

  /** memmove(buf + dst, buf + src, n), skipped when it would move nothing. */
  method MoveDown(buf: array<byte>, dst: nat, src: nat, n: nat)
    requires dst <= src && src + n <= buf.Length
    modifies buf
    ensures buf[..dst + n] == old(buf[..dst] + buf[src..src + n])
    ensures forall k :: src + n <= k < buf.Length ==> buf[k] == old(buf[k])
  {
    if dst != src {
      forall i | 0 <= i < n {
        buf[dst + i] := buf[src + i];
      }
    }
  }
}
