/** The contract of the homomorphic-encryption library: ciphertexts and plaintexts as slot vectors that
    carry an NTT-form flag and a level of the modulus-switching chain (0 is the last level).
    An operation whose operands are in the wrong form or at different levels throws `invalid_argument`. */
module Seal {
  import opened Exceptions
  import Slots

  datatype Plaintext = Plaintext(slots: Slots.Vec, ntt: bool, level: nat)

  /** `Unset` is a default-constructed ciphertext. */
  datatype Ciphertext = Unset | Ciphertext(slots: Slots.Vec, ntt: bool, level: nat)

  function MultiplyPlain(c: Ciphertext, a: Plaintext, p: int): Result<Ciphertext>
    requires p > 0
  {
    if c.Unset? || c.ntt != a.ntt || (c.ntt && c.level != a.level) || |c.slots| != |a.slots| then InvalidArgument
    else Ok(Ciphertext(Slots.Mul(a.slots, c.slots, p), c.ntt, c.level))
  }

  function Multiply(c: Ciphertext, d: Ciphertext, p: int): Result<Ciphertext>
    requires p > 0
  {
    if c.Unset? || d.Unset? || c.ntt || d.ntt || c.level != d.level || |c.slots| != |d.slots| then InvalidArgument
    else Ok(Ciphertext(Slots.Mul(c.slots, d.slots, p), false, c.level))
  }

  function Add(c: Ciphertext, d: Ciphertext, p: int): Result<Ciphertext>
    requires p > 0
  {
    if c.Unset? || d.Unset? || c.ntt != d.ntt || c.level != d.level || |c.slots| != |d.slots| then InvalidArgument
    else Ok(Ciphertext(Slots.Add(c.slots, d.slots, p), c.ntt, c.level))
  }

  function AddPlain(c: Ciphertext, a: Plaintext, p: int): Result<Ciphertext>
    requires p > 0
  {
    if c.Unset? || c.ntt || a.ntt || |c.slots| != |a.slots| then InvalidArgument
    else Ok(Ciphertext(Slots.Add(c.slots, a.slots, p), false, c.level))
  }

  function ToNtt(c: Ciphertext): Result<Ciphertext> {
    if c.Unset? || c.ntt then InvalidArgument else Ok(c.(ntt := true))
  }

  function FromNtt(c: Ciphertext): Result<Ciphertext> {
    if c.Unset? || !c.ntt then InvalidArgument else Ok(c.(ntt := false))
  }

  /** Switching goes down only, and not in NTT form unless there is nothing to do. */
  function ModSwitchTo(c: Ciphertext, level: nat): Result<Ciphertext> {
    if c.Unset? || c.level < level || (c.ntt && c.level > level) then InvalidArgument
    else Ok(c.(level := level))
  }

  /** The level `get_parms_id_for_chain_idx` picks when the first data level is `first`. */
  function ChainLevel(first: nat, idx: nat): nat {
    if first < idx then first else idx
  }

  /** All-zero slots. */
  function Zero(n: nat): Slots.Vec {
    seq(n, _ => 0)
  }
}
