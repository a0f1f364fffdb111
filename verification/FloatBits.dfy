/** The operations on the sign bit of single-precision values, as coded with masks. */
module FloatBits {
  import opened Bits
  import opened IsaHelpers

  const HIGH_BIT: u32 := 0x8000_0000

  /** `f32_neg`. */
  function Neg(v: u32): u32 { Or32(And(Xor32(v, HIGH_BIT), HIGH_BIT), And(v, Not(HIGH_BIT))) }

  function Sgnj(a: u32, b: u32): u32 { Or32(And(b, HIGH_BIT), And(a, Not(HIGH_BIT))) }

  function Sgnjn(a: u32, b: u32): u32 { Or32(And(Xor32(b, HIGH_BIT), HIGH_BIT), And(a, Not(HIGH_BIT))) }

  function Sgnjx(a: u32, b: u32): u32 { Or32(Xor32(And(a, HIGH_BIT), And(b, HIGH_BIT)), And(a, Not(HIGH_BIT))) }

  function SignOf(v: u32): u32 { if v < HIGH_BIT then 0 else HIGH_BIT }

  lemma SignMasks(v: u32)
    ensures And(v, HIGH_BIT) == SignOf(v)
    ensures And(v, Not(HIGH_BIT)) == v % HIGH_BIT
    ensures Xor(v, HIGH_BIT) == v + HIGH_BIT - 2 * SignOf(v)
  {
    hide And, Up, Low, Bit, Xor, Pow2;
    Pow2Values();
    AndOneHot(v, 31);
    TopBit(v, 32);
    ShiftByBit(31);
    AndLowMask(v, 31);
    LowIs(v);
  }

  lemma LowIs(v: u32)
    ensures Low(v, 31) == v % HIGH_BIT
  {
    Pow2Values();
  }

  lemma JoinSign(s: u32, a: u32)
    requires s == 0 || s == HIGH_BIT
    ensures Or32(s, a % HIGH_BIT) == s + a % HIGH_BIT
  {
    Pow2Values();
    ShiftByBit(31);
    hide Or, Up, Pow2;
    Pow2Values();
    OrDisjoint(a % HIGH_BIT, if s == 0 then 0 else 1, 31);
  }

  /** Negation adds 2^31 modulo 2^32, so it flips the sign and nothing else. */
  lemma NegValue(v: u32)
    ensures Neg(v) == Wrap(v + HIGH_BIT)
  {
    hide And, Or, Xor;
    SignMasks(v);
    SignMasks(Xor32(v, HIGH_BIT));
    JoinSign(SignOf(Xor32(v, HIGH_BIT)), v);
  }

  /** The magnitude is that of the first operand, the sign the one asked for. */
  lemma SignInjection(a: u32, b: u32)
    ensures Sgnj(a, b) == a % HIGH_BIT + SignOf(b)
    ensures Sgnjn(a, b) == a % HIGH_BIT + (HIGH_BIT - SignOf(b))
    ensures Sgnjx(a, b) == a % HIGH_BIT + if SignOf(a) == SignOf(b) then 0 else HIGH_BIT
  {
    hide And, Or, Xor;
    SignMasks(a);
    SignMasks(b);
    SignMasks(Xor32(b, HIGH_BIT));
    JoinSign(SignOf(b), a);
    JoinSign(SignOf(Xor32(b, HIGH_BIT)), a);
    SignXor(SignOf(a), SignOf(b));
    JoinSign(Xor32(SignOf(a), SignOf(b)), a);
  }

  lemma SignXor(s: u32, t: u32)
    requires (s == 0 || s == HIGH_BIT) && (t == 0 || t == HIGH_BIT)
    ensures Xor32(s, t) == if s == t then 0 else HIGH_BIT
  {
    hide And, Xor;
    SignMasks(s);
    AndZero(s);
  }
}
