/**
 The tables a cipher object works with, and what the cipher needs of them. SourceTables.dfy
 gives the ones of the source.
 */
module AesTables {
  import opened GfColumns

  /** The tables held by a cipher object. */
  datatype Tables = Tables(ops: Ops<bv8>, sub: bv8 -> bv8, inv: bv8 -> bv8, rcon: seq<bv8>)

  /** {02} to the power n: the round constants of section 5.2 of FIPS 197. */
  function PowerOfTwo(o: Ops<bv8>, n: nat): bv8 {
    if n == 0 then 1 else o.dbl(PowerOfTwo(o, n - 1))
  }

  /** All that the cipher needs of its tables. */
  ghost predicate Sound(t: Tables) {
    && Laws(t.ops)
    && (forall x: bv8 {:trigger Use1(x)} :: Use1(x) ==> t.inv(t.sub(x)) == x)
    && |t.rcon| == 30
    && (forall n: nat :: n < 30 ==> t.rcon[n] == PowerOfTwo(t.ops, n))
  }
}
