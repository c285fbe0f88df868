/**
 `generate_random_string`: `random.choices` over lowercase letters and digits.
 The random source is not modelled; the draws arrive as a sequence of indices
 into the alphabet, one per character, so every outcome of the generator is
 some value of this function.
 */
module RandomNames {

  /** The `n` consecutive characters from `lo` on. */
  function CharRange(lo: char, n: nat): (r: string)
    requires lo as int + n <= 0xD800
    ensures |r| == n
    ensures forall k :: 0 <= k < n ==> r[k] as int == lo as int + k
  {
    seq(n, k requires 0 <= k < n => (lo as int + k) as char)
  }

  /** `string.ascii_lowercase` and `string.digits` */
  const Lowercase: string := CharRange('a', 26)
  const Digits: string := CharRange('0', 10)

  /** The alphabet `generate_random_string` draws from. */
  const Alphabet: string := Lowercase + Digits

  /** One draw of `random.choices`: an index into the 36-character alphabet. */
  type Pick = i: nat | i < 36

  /** Default lengths used by the bot: usernames and passwords. */
  const UsernameLength: nat := 10
  const PasswordLength: nat := 12

  predicate IsLowerAlnum(c: char) {
    ('a' <= c <= 'z') || ('0' <= c <= '9')
  }

  predicate AllLowerAlnum(s: string) {
    forall k :: 0 <= k < |s| ==> IsLowerAlnum(s[k])
  }

  /** The alphabet holds exactly the lowercase letters and digits. */
  lemma AlphabetChars(c: char)
    ensures c in Alphabet <==> IsLowerAlnum(c)
  {
    if IsLowerAlnum(c) {
      var i := if 'a' <= c <= 'z' then c as int - 'a' as int else 26 + c as int - '0' as int;
      assert Alphabet[i] == c;
    }
  }

  /** Spelled out, the alphabet is the 26 small letters followed by the 10 digits. */
  lemma AlphabetLiteral()
    ensures Alphabet == "abcdefghijklmnopqrstuvwxyz0123456789"
  {
  }

  /** `generate_random_string(length)` for the draws `picks`, `length == |picks|`. */
  function RandomString(picks: seq<Pick>): (r: string)
    ensures |r| == |picks|
    ensures AllLowerAlnum(r)
  {
    if |picks| == 0 then ""
    else
      AlphabetChars(Alphabet[picks[0]]);
      [Alphabet[picks[0]]] + RandomString(picks[1..])
  }

  /** Index of an alphabet character. */
  function PickOf(c: char): (p: Pick)
    requires IsLowerAlnum(c)
    ensures Alphabet[p] == c
  {
    if 'a' <= c <= 'z' then c as int - 'a' as int else 26 + c as int - '0' as int
  }

  /** Every string of lowercase letters and digits is an outcome of the
      generator: the generator is onto its alphabet strings. */
  lemma {:induction false} RandomStringOnto(s: string)
    requires AllLowerAlnum(s)
    ensures exists picks: seq<Pick> :: |picks| == |s| && RandomString(picks) == s
  {
    if |s| == 0 {
      assert RandomString([]) == s;
    } else {
      RandomStringOnto(s[1..]);
      var rest: seq<Pick> :| |rest| == |s| - 1 && RandomString(rest) == s[1..];
      var picks := [PickOf(s[0])] + rest;
      assert picks[1..] == rest;
      assert RandomString(picks) == s;
    }
  }
}
