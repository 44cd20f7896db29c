/** The swap bitmap: 32-bit words that represent a set of slot numbers. */
module Bitmap {
  const BITS := 32
  const ALLBITS := 0xffff_ffff

  /** `DIVROUNDUP(nbits, BITS_PER_WORD)` in 32-bit unsigned arithmetic. */
  function Words(nbits: nat): nat {
    (nbits + (BITS - 1)) % 0x1_0000_0000 / BITS
  }

  /** `1 << k`. */
  function Pow2(k: nat): (p: nat)
    ensures p > 0
  {
    if k == 0 then 1 else 2 * Pow2(k - 1)
  }

  /** `w & (1 << k)` is not zero. */
  predicate Bit(w: nat, k: nat) {
    if k == 0 then w % 2 == 1 else Bit(w / 2, k - 1)
  }

  /** `w | (1 << k)`, halving down to the bit. */
  function SetBit(w: nat, k: nat): nat {
    if k == 0 then w - w % 2 + 1 else 2 * SetBit(w / 2, k - 1) + w % 2
  }

  /** `w & ~(1 << k)`. */
  function ClearBit(w: nat, k: nat): nat {
    if k == 0 then w - w % 2 else 2 * ClearBit(w / 2, k - 1) + w % 2
  }

  /** Setting or clearing bit `k` changes that bit of the word and no other. */
  lemma {:induction false} BitAfter(w: nat, k: nat, j: nat)
    ensures Bit(SetBit(w, k), j) <==> j == k || Bit(w, j)
    ensures Bit(ClearBit(w, k), j) <==> j != k && Bit(w, j)
  {
    if k == 0 {
      assert SetBit(w, k) / 2 == ClearBit(w, k) / 2 == w / 2;
    } else {
      var s, c := SetBit(w / 2, k - 1), ClearBit(w / 2, k - 1);
      assert SetBit(w, k) == 2 * s + w % 2 && ClearBit(w, k) == 2 * c + w % 2;
      if j > 0 {
        BitAfter(w / 2, k - 1, j - 1);
        assert SetBit(w, k) / 2 == s && ClearBit(w, k) / 2 == c;
      }
    }
  }

  /** Both stay within the word, and are plain addition and subtraction of `1 << k` where they change anything. */
  lemma {:induction false} BitArithmetic(w: nat, k: nat, n: nat)
    requires k < n && w < Pow2(n)
    ensures SetBit(w, k) < Pow2(n) && ClearBit(w, k) < Pow2(n)
    ensures SetBit(w, k) == if Bit(w, k) then w else w + Pow2(k)
    ensures ClearBit(w, k) == if Bit(w, k) then w - Pow2(k) else w
  {
    if k > 0 {
      BitArithmetic(w / 2, k - 1, n - 1);
    }
  }

  lemma {:induction false} AllOnes(n: nat, k: nat)
    requires k < n
    ensures Bit(Pow2(n) - 1, k)
  {
    if k > 0 {
      assert (Pow2(n) - 1) / 2 == Pow2(n - 1) - 1;
      AllOnes(n - 1, k - 1);
    }
  }

  /** A word other than all ones has a clear bit. */
  lemma {:induction false} SomeZero(w: nat, n: nat) returns (k: nat)
    requires w < Pow2(n) - 1
    ensures k < n && !Bit(w, k)
  {
    if w % 2 == 0 {
      k := 0;
    } else {
      k := SomeZero(w / 2, n - 1);
      k := k + 1;
    }
  }

  lemma {:induction false} ZeroBits(k: nat)
    ensures !Bit(0, k)
  {
    if k > 0 { ZeroBits(k - 1); }
  }

  lemma WordRange()
    ensures Pow2(BITS) == 0x1_0000_0000
  {
    assert Pow2(8) == 0x100;
    assert Pow2(16) == 0x1_0000;
    assert Pow2(24) == 0x100_0000;
  }

  /** The words cover every bit number exactly when the rounding up does not wrap. */
  lemma WordsCover(nbits: nat)
    requires nbits < 0x1_0000_0000
    ensures nbits <= BITS * Words(nbits) <==> nbits <= 0xffff_ffe0
    ensures nbits <= 0xffff_ffe0 ==> BITS * Words(nbits) < nbits + BITS
  {
  }

  /** The least number from `i` on that is not in `used`, or `n`. */
  function LeastFree(used: set<nat>, i: nat, n: nat): (k: nat)
    requires i <= n
    ensures i <= k <= n
    ensures k < n ==> k !in used
    ensures forall j | i <= j < k :: j in used
    decreases n - i
  {
    if i == n || i !in used then i else LeastFree(used, i + 1, n)
  }

  lemma LeastFreeIs(used: set<nat>, n: nat, k: nat)
    requires k <= n && (forall j | 0 <= j < k :: j in used) && (k < n ==> k !in used)
    ensures LeastFree(used, 0, n) == k
  {
  }

  /** Bit number `i` of the words. */
  predicate BitAt(words: seq<nat>, i: nat)
    requires i < BITS * |words|
  {
    Bit(words[i / BITS], i % BITS)
  }

  /** Every bit number has its word, and the bits past the last number are set. */
  ghost predicate WellFormed(words: seq<nat>, nbits: nat) {
    |words| == Words(nbits) && nbits <= BITS * |words|
    && (forall k | 0 <= k < |words| :: words[k] <= ALLBITS)
    && forall i | nbits <= i < BITS * |words| :: BitAt(words, i)
  }

  /** The set of numbers the words represent. */
  ghost function UsedIn(words: seq<nat>, nbits: nat): set<nat>
    requires WellFormed(words, nbits)
  {
    set i: nat | i < nbits && BitAt(words, i)
  }

  lemma OneBitChanged(words: seq<nat>, nbits: nat, i: nat, on: bool)
    requires WellFormed(words, nbits) && i < nbits
    ensures var w := words[i / BITS];
            var words' := words[i / BITS := if on then SetBit(w, i % BITS) else ClearBit(w, i % BITS)];
            WellFormed(words', nbits)
            && UsedIn(words', nbits) == if on then UsedIn(words, nbits) + {i} else UsedIn(words, nbits) - {i}
  {
    var w := words[i / BITS];
    var words' := words[i / BITS := if on then SetBit(w, i % BITS) else ClearBit(w, i % BITS)];
    WordRange();
    BitArithmetic(w, i % BITS, BITS);
    forall j: nat | j < BITS * |words| ensures BitAt(words', j) <==> if j == i then on else BitAt(words, j) {
      if j / BITS == i / BITS {
        BitAfter(w, i % BITS, j % BITS);
      }
    }
  }

  /** The loop of `bitmap_create` that marks the leftover bits of a word as in use. */
  method MarkLeftover(v: array<nat>, ix: nat, overbits: nat)
    requires ix < v.Length && v[ix] == 0 && overbits < BITS
    modifies v
    ensures v[ix] <= ALLBITS && forall k: nat | k < BITS :: Bit(v[ix], k) <==> overbits <= k
    ensures forall i | 0 <= i < v.Length && i != ix :: v[i] == old(v[i])
  {
    WordRange();
    forall k: nat | k < BITS {
      ZeroBits(k);
    }
    var j := overbits;
    while j < BITS
      invariant overbits <= j <= BITS
      invariant forall i | 0 <= i < v.Length && i != ix :: v[i] == old(v[i])
      invariant v[ix] <= ALLBITS && forall k: nat | k < BITS :: Bit(v[ix], k) <==> overbits <= k < j
    {
      ghost var w := v[ix];
      BitArithmetic(w, j, BITS);
      v[ix] := SetBit(v[ix], j);
      forall k: nat | k < BITS ensures Bit(v[ix], k) <==> overbits <= k < j + 1 {
        BitAfter(w, j, k);
      }
      j := j + 1;
    }
  }

  class Map {
    const nbits: nat
    const v: array<nat>

    ghost predicate Valid()
      reads v
    {
      WellFormed(v[..], nbits)
    }

    ghost function Used(): set<nat>
      requires Valid()
      reads v
    {
      UsedIn(v[..], nbits)
    }

    /** `bitmap_create`. For the last 31 sizes the rounding wraps to no words at all. */
    constructor (nbits: nat)
      requires nbits < 0x1_0000_0000
      ensures this.nbits == nbits && fresh(v)
      ensures Valid() <==> nbits <= 0xffff_ffe0
      ensures Valid() ==> Used() == {}
    {
      this.nbits := nbits;
      var words := Words(nbits);
      v := new nat[words](_ => 0);
      new;
      WordsCover(nbits);
      WordRange();
      forall k: nat | k < BITS {
        ZeroBits(k);
      }
      if words > nbits / BITS {
        var ix := words - 1;
        var overbits := nbits - ix * BITS;
        assert nbits / BITS == words - 1;
        assert 0 < overbits < BITS;
        MarkLeftover(v, ix, overbits);
      }
    }

    method Alloc() returns (ok: bool, index: nat)
      requires Valid()
      modifies v
      ensures Valid()
      ensures ok <==> LeastFree(old(Used()), 0, nbits) < nbits
      ensures ok ==> index == LeastFree(old(Used()), 0, nbits) && Used() == old(Used()) + {index}
      ensures !ok ==> Used() == old(Used())
    {
      WordRange();
      var ix, maxix := 0, Words(nbits);
      while ix < maxix
        invariant 0 <= ix <= maxix && v[..] == old(v[..])
        invariant forall i | 0 <= i < BITS * ix :: BitAt(v[..], i)
      {
        if v[ix] != ALLBITS {
          ghost var zero := SomeZero(v[ix], BITS);
          var offset := 0;
          while offset < BITS
            invariant 0 <= offset <= BITS && v[..] == old(v[..])
            invariant offset <= zero && forall k | 0 <= k < offset :: Bit(v[ix], k)
          {
            if !Bit(v[ix], offset) {
              index := ix * BITS + offset;
              assert index / BITS == ix && index % BITS == offset;
              assert !BitAt(v[..], index);
              assert index < nbits;
              forall i | 0 <= i < index ensures i in Used() {
                assert i / BITS == ix ==> i % BITS < offset;
              }
              LeastFreeIs(Used(), nbits, index);
              OneBitChanged(v[..], nbits, index, true);
              v[ix] := SetBit(v[ix], offset);
              return true, index;
            }
            offset := offset + 1;
          }
          assert false;
        }
        forall i | BITS * ix <= i < BITS * (ix + 1) ensures BitAt(v[..], i) {
          assert i / BITS == ix;
          AllOnes(BITS, i % BITS);
        }
        ix := ix + 1;
      }
      LeastFreeIs(Used(), nbits, nbits);
      return false, 0;
    }

    method Mark(index: nat)
      requires Valid() && index < nbits && index !in Used()
      modifies v
      ensures Valid() && Used() == old(Used()) + {index}
    {
      OneBitChanged(v[..], nbits, index, true);
      v[index / BITS] := SetBit(v[index / BITS], index % BITS);
    }

    method Unmark(index: nat)
      requires Valid() && index < nbits && index in Used()
      modifies v
      ensures Valid() && Used() == old(Used()) - {index}
    {
      OneBitChanged(v[..], nbits, index, false);
      v[index / BITS] := ClearBit(v[index / BITS], index % BITS);
    }

    /** A number past the last one reads as used. */
    method IsSet(index: nat) returns (isset: bool)
      requires Valid() && index < BITS * v.Length
      ensures isset <==> index in Used() || index >= nbits
    {
      assert index >= nbits ==> BitAt(v[..], index);
      isset := Bit(v[index / BITS], index % BITS);
    }
  }
}
