/** The modular integer operations of libgcrypt that seccure calls, as functions
    on mathematical integers, with the ring homomorphism facts that let a chain
    of register updates be read as one integer polynomial reduced once. */
module Mpi {
  import opened Bytes
  import opened ModArith
  import opened Primes

  /** `gcry_mpi_addm`. */
  function AddMod(a: int, b: int, m: int): (r: int)
    requires m > 0
    ensures 0 <= r < m && Cong(r, a + b, m)
  {
    CongResidue(a + b, m);
    (a + b) % m
  }

  /** `gcry_mpi_subm`. */
  function SubMod(a: int, b: int, m: int): (r: int)
    requires m > 0
    ensures 0 <= r < m && Cong(r, a - b, m)
  {
    CongResidue(a - b, m);
    (a - b) % m
  }

  /** `gcry_mpi_mulm`. */
  function MulMod(a: int, b: int, m: int): (r: int)
    requires m > 0
    ensures 0 <= r < m && Cong(r, a * b, m)
  {
    CongResidue(a * b, m);
    (a * b) % m
  }

  /** `gcry_mpi_powm`. */
  function PowMod(b: int, e: nat, m: int): (r: int)
    requires m > 0
    ensures 0 <= r < m && Cong(r, Pow(b, e), m)
  {
    CongResidue(Pow(b, e), m);
    Pow(b, e) % m
  }

  /** `gcry_mpi_invm`, for an argument that has an inverse. */
  function InvMod(a: int, m: int): (r: int)
    requires IsPrime(m) && !Cong(a, 0, m)
    ensures 0 <= r < m && Cong(r * a, 1, m)
  {
    NonzeroResidue(a, m);
    CongResidue(a, m);
    InvModStep(Inverse(a % m, m), a, m);
    Inverse(a % m, m)
  }

  lemma NonzeroResidue(a: int, m: int)
    requires m > 1 && !Cong(a, 0, m)
    ensures 0 < a % m < m
  {
    CongIffSameResidue(a, 0, m);
  }

  lemma InvModStep(u: int, a: int, m: int)
    requires m > 0 && Cong(u * (a % m), 1, m)
    ensures Cong(u * a, 1, m)
  {
    CongResidue(a, m);
    hide Cong;
    Combine2(m, u * a, 1, 1, u * (a % m), 1, -u, a % m, a);
  }

  /** Residues are canonical: congruent field elements are equal. */
  lemma SameFieldElement(a: int, b: int, m: int)
    requires 0 <= a < m && 0 <= b < m && Cong(a, b, m)
    ensures a == b
  {
    if a != b { CloseNotCong(a, b, m); }
  }

  lemma CongSelf(a: int, m: int)
    requires m > 0
    ensures Cong(a, a, m)
  {
    CongFromWitness(a, a, m, 0);
  }

  lemma CongTrans(a: int, b: int, c: int, m: int)
    requires m > 0 && Cong(a, b, m) && Cong(b, c, m)
    ensures Cong(a, c, m)
  {
    hide Cong;
    Combine2(m, a, c, 1, a, b, 1, b, c);
  }

  lemma CongSym(a: int, b: int, m: int)
    requires m > 0 && Cong(a, b, m)
    ensures Cong(b, a, m)
  {
    hide Cong;
    Combine1(m, b, a, -1, a, b);
  }

  lemma CongProduct(a: int, b: int, c: int, d: int, m: int)
    requires m > 0 && Cong(a, b, m) && Cong(c, d, m)
    ensures Cong(a * c, b * d, m)
  {
    hide Cong;
    Combine2(m, a * c, b * d, c, a, b, b, c, d);
  }

  lemma AddHom(r: int, a: int, s: int, b: int, m: int)
    requires m > 0 && Cong(r, a, m) && Cong(s, b, m)
    ensures Cong(AddMod(r, s, m), a + b, m)
  {
    hide Cong;
    Combine3(m, AddMod(r, s, m), a + b, 1, AddMod(r, s, m), r + s, 1, r, a, 1, s, b);
  }

  lemma SubHom(r: int, a: int, s: int, b: int, m: int)
    requires m > 0 && Cong(r, a, m) && Cong(s, b, m)
    ensures Cong(SubMod(r, s, m), a - b, m)
  {
    hide Cong;
    Combine3(m, SubMod(r, s, m), a - b, 1, SubMod(r, s, m), r - s, 1, r, a, -1, s, b);
  }

  lemma MulHom(r: int, a: int, s: int, b: int, m: int)
    requires m > 0 && Cong(r, a, m) && Cong(s, b, m)
    ensures Cong(MulMod(r, s, m), a * b, m)
  {
    hide Cong;
    CongProduct(r, a, s, b, m);
    CongTrans(MulMod(r, s, m), r * s, a * b, m);
  }

  lemma CancelFactor(c: int, a: int, b: int, p: int)
    requires IsPrime(p) && !Cong(c, 0, p) && Cong(c * a, c * b, p)
    ensures Cong(a, b, p)
  {
    hide Cong;
    Combine1(p, c * (a - b), 0, 1, c * a, c * b);
    PrimeDividesProduct(c, a - b, p);
    Combine1(p, a, b, 1, a - b, 0);
  }

  lemma ProductNonzero(a: int, b: int, p: int)
    requires IsPrime(p) && !Cong(a, 0, p) && !Cong(b, 0, p)
    ensures !Cong(a * b, 0, p)
  {
    if Cong(a * b, 0, p) { PrimeDividesProduct(a, b, p); }
  }

  // ------------------------------------------------------------ bits

  /** `gcry_mpi_rshift`. */
  function ShiftRight(e: nat, n: nat): nat
  {
    QuotientNonnegative(e, Pow2(n));
    e / Pow2(n)
  }

  /** `gcry_mpi_test_bit`. */
  predicate TestBit(e: nat, n: nat)
  {
    ShiftRight(e, n) % 2 == 1
  }

  /** `gcry_mpi_get_nbits`: bits up to the highest set one. */
  function BitLength(e: nat): (n: nat)
    ensures e < Pow2(n)
  {
    if e == 0 then 0 else 1 + BitLength(e / 2)
  }

  /** Reading an exponent from its top bit down. */
  lemma ShiftEnds(e: nat)
    ensures ShiftRight(e, BitLength(e)) == 0 && ShiftRight(e, 0) == e
  {
    DivUnique(e, Pow2(BitLength(e)), 0, e);
    assert Pow2(0) == 1;
  }

  lemma ShiftStep(e: nat, n: nat)
    ensures ShiftRight(e, n + 1) == ShiftRight(e, n) / 2
  {
    var d := Pow2(n);
    var k, r := e / d, e % d;
    ShiftIdentity(e, d, k, r);
    DivUnique(e, 2 * d, k / 2, (k % 2) * d + r) by { if k % 2 == 1 { assert (k % 2) * d == d; } }
  }

  lemma ShiftIdentity(e: int, d: int, k: int, r: int)
    requires e == k * d + r
    ensures e == (k / 2) * (2 * d) + ((k % 2) * d + r)
  {
    var q, b := k / 2, k % 2;
    assert k == 2 * q + b;
    assert k * d == q * (2 * d) + b * d;
  }
}
