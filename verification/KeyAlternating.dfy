/**
 A key-alternating block cipher and its equivalent inverse (sections 5.1 and 5.3.5 of
 FIPS 197), over any round operations. AesCipher.dfy supplies those of Rijndael.
 */
module KeyAlternating {

  /** The round operations: `add` a round key, substitute and permute, mix; and their inverses. */
  datatype Layers<!S(!new)> = Layers(add: (S, S) -> S, sub: S -> S, inv: S -> S, mix: S -> S, unmix: S -> S)

  // Triggers of the laws.
  ghost predicate Use1<S(!new)>(s: S) { true }
  ghost predicate Use2<S(!new)>(s: S, k: S) { true }

  ghost predicate Laws<S(!new)>(l: Layers<S>) {
    && (forall s {:trigger Use1(s)} :: Use1(s) ==> l.inv(l.sub(s)) == s && l.unmix(l.mix(s)) == s)
    && (forall s, k {:trigger Use2(s, k)} :: Use2(s, k) ==>
          l.add(l.add(s, k), k) == s && l.unmix(l.add(s, k)) == l.add(l.unmix(s), l.unmix(k)))
  }

  /** The state after the initial key addition and r full rounds. */
  function Rounds<S(!new)>(l: Layers<S>, keys: seq<S>, r: nat, a: S): S
    requires r < |keys|
  {
    if r == 0 then l.add(a, keys[0])
    else l.add(l.mix(l.sub(Rounds(l, keys, r - 1, a))), keys[r])
  }

  /** Figure 5 of FIPS 197, with Nr = |keys| - 1: the last round does not mix. */
  function Cipher<S(!new)>(l: Layers<S>, keys: seq<S>, a: S): S
    requires |keys| >= 2
  {
    l.add(l.sub(Rounds(l, keys, |keys| - 2, a)), keys[|keys| - 1])
  }

  /** The state of the equivalent inverse cipher after j full rounds. */
  function InvRounds<S(!new)>(l: Layers<S>, keys: seq<S>, j: nat, c: S): S
    requires j < |keys|
  {
    if j == 0 then l.add(c, keys[|keys| - 1])
    else l.add(l.unmix(l.inv(InvRounds(l, keys, j - 1, c))), keys[|keys| - 1 - j])
  }

  /** Figure 15 of FIPS 197. */
  function EqInvCipher<S(!new)>(l: Layers<S>, keys: seq<S>, c: S): S
    requires |keys| >= 2
  {
    l.add(l.inv(InvRounds(l, keys, |keys| - 2, c)), keys[0])
  }

  /** The decryption key schedule: every round key but the first and the last is unmixed. */
  function DecryptionKeys<S(!new)>(l: Layers<S>, keys: seq<S>): seq<S> {
    seq(|keys|, i requires 0 <= i < |keys| => if 0 < i < |keys| - 1 then l.unmix(keys[i]) else keys[i])
  }

  lemma Inverses<S(!new)>(l: Layers<S>, s: S)
    requires Laws(l)
    ensures l.inv(l.sub(s)) == s && l.unmix(l.mix(s)) == s
  {
    assert Use1(s);
  }

  lemma KeyAddition<S(!new)>(l: Layers<S>, s: S, k: S)
    requires Laws(l)
    ensures l.add(l.add(s, k), k) == s && l.unmix(l.add(s, k)) == l.add(l.unmix(s), l.unmix(k))
  {
    assert Use2(s, k);
  }

  /** After j inverse rounds the state is the substituted state of the matching cipher round. */
  lemma {:induction false} InvRoundsOfCipher<S(!new)>(l: Layers<S>, keys: seq<S>, j: nat, a: S)
    requires Laws(l)
    requires |keys| >= 2 && j < |keys| - 1
    ensures InvRounds(l, DecryptionKeys(l, keys), j, Cipher(l, keys, a)) == l.sub(Rounds(l, keys, |keys| - 2 - j, a))
  {
    var n := |keys| - 1;
    if j == 0 {
      KeyAddition(l, l.sub(Rounds(l, keys, n - 1, a)), keys[n]);
    } else {
      InvRoundsOfCipher(l, keys, j - 1, a);
      var y := l.sub(Rounds(l, keys, n - 1 - j, a));
      Inverses(l, Rounds(l, keys, n - j, a));
      Inverses(l, y);
      KeyAddition(l, l.mix(y), keys[n - j]);
      KeyAddition(l, y, l.unmix(keys[n - j]));
    }
  }

  /** The equivalent inverse cipher under the transformed key schedule undoes the cipher, for
      every number of rounds, all round keys and every block. */
  lemma EqInvCipherInverts<S(!new)>(l: Layers<S>, keys: seq<S>, a: S)
    requires Laws(l)
    requires |keys| >= 2
    ensures EqInvCipher(l, DecryptionKeys(l, keys), Cipher(l, keys, a)) == a
  {
    InvRoundsOfCipher(l, keys, |keys| - 2, a);
    Inverses(l, Rounds(l, keys, 0, a));
    KeyAddition(l, a, keys[0]);
  }
}
