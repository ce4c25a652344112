/** 32-bit words meet the laws of the round functions. */
module CastWords {
  import opened Bits
  import opened CastRounds
  import opened Rfc2144
  import opened WordNumbers
  import opened Words

  lemma SumsAssociate(x: Word, y: Word, z: Word)
    ensures Plus(x, Plus(y, z)) == Plus(Plus(x, y), z)
  {
    calc {
      Plus(x, Plus(y, z));
      x + Plus(y, z);
      x + (y + z);
      (x + y) + z;
      Plus(x + y, z);
      Plus(Plus(x, y), z);
    }
  }

  lemma XorsAssociate(x: Word, y: Word, z: Word)
    ensures Xor2(x, Xor2(y, z)) == Xor2(Xor2(x, y), z)
  {
    calc {
      Xor2(x, Xor2(y, z));
      x ^ Xor2(y, z);
      x ^ (y ^ z);
      (x ^ y) ^ z;
      Xor2(x ^ y, z);
      Xor2(Xor2(x, y), z);
    }
  }

  lemma MinusSum(x: Word, y: Word, z: Word)
    ensures Minus(x, Plus(y, z)) == Minus(Minus(x, y), z)
  {
    calc {
      Minus(x, Plus(y, z));
      x - Plus(y, z);
      x - (y + z);
      (x - y) - z;
      Minus(x - y, z);
      Minus(Minus(x, y), z);
    }
  }

  lemma SumMinus(x: Word, y: Word, z: Word)
    ensures Minus(Plus(x, y), z) == Plus(Minus(x, z), y)
  {
    calc {
      Minus(Plus(x, y), z);
      Plus(x, y) - z;
      (x + y) - z;
      (x - z) + y;
      Plus(x - z, y);
      Plus(Minus(x, z), y);
    }
  }

  lemma Restored(x: Word, y: Word)
    ensures (x - y) + y == x
  {
  }

  lemma MinusUndone(x: Word, y: Word)
    ensures Plus(Minus(x, y), y) == x
  {
    calc {
      Plus(Minus(x, y), y);
      Plus(x - y, y);
      (x - y) + y;
      { Restored(x, y); }
      x;
    }
  }

  lemma SumsLawful()
    ensures Commutes(Plus) && Associates(Plus) && HasZero(Plus, 0)
  {
    forall x: Word, y: Word {:trigger Plus(x, y)}
      ensures Plus(x, y) == Plus(y, x)
    {
    }
    forall x: Word, y: Word, z: Word {:trigger Plus(x, Plus(y, z))}
      ensures Plus(x, Plus(y, z)) == Plus(Plus(x, y), z)
    {
      SumsAssociate(x, y, z);
    }
  }

  lemma XorsLawful()
    ensures Commutes(Xor2) && Associates(Xor2) && HasZero(Xor2, 0) && Cancels(Xor2, 0)
  {
    forall x: Word, y: Word {:trigger Xor2(x, y)}
      ensures Xor2(x, y) == Xor2(y, x)
    {
    }
    forall x: Word, y: Word, z: Word {:trigger Xor2(x, Xor2(y, z))}
      ensures Xor2(x, Xor2(y, z)) == Xor2(Xor2(x, y), z)
    {
      XorsAssociate(x, y, z);
    }
  }

  lemma DifferencesTakeSums()
    ensures TakesSums(Minus, Plus)
  {
    forall x: Word, y: Word, z: Word {:trigger Minus(x, Plus(y, z))}
      ensures Minus(x, Plus(y, z)) == Minus(Minus(x, y), z)
    {
      MinusSum(x, y, z);
    }
  }

  lemma DifferencesTakeFromSums()
    ensures TakesFromSums(Minus, Plus)
  {
    forall x: Word, y: Word, z: Word {:trigger Minus(Plus(x, y), z)}
      ensures Minus(Plus(x, y), z) == Plus(Minus(x, z), y)
    {
      SumMinus(x, y, z);
    }
  }

  lemma DifferencesUndone()
    ensures Undone(Minus, Plus) && HasZero(Minus, 0)
  {
    forall x: Word, y: Word {:trigger Plus(Minus(x, y), y)}
      ensures Plus(Minus(x, y), y) == x
    {
      MinusUndone(x, y);
    }
  }

  /** The operations of words are lawful. */
  lemma WordsAreLawful()
    ensures Lawful(WordMachine())
  {
    SumsLawful();
    XorsLawful();
    DifferencesTakeSums();
    DifferencesTakeFromSums();
    DifferencesUndone();
  }

  /** Exclusive-or is that of the bits. */
  lemma XorOfBits(x: Word, y: Word, j: nat)
    requires j < 32
    ensures BitIn(WordMachine().xor(x, y), j) <==> BitIn(x, j) != BitIn(y, j)
  {
    BitIsSingle(j);
    OneMeets(x, y, BitAt(j));
  }

  lemma SameAmount(r: Byte)
    ensures (r as nat) as bv8 == r && (r < 32 <==> r as nat < 32)
  {
  }

  lemma SameRotation(w: Word, r: Rotation)
    ensures RotlBy(w, r as nat) == WordMachine().rot(w, r) && r as nat < 32
  {
    SameAmount(r);
  }

  /** Rotation by r takes bit j to position (j + r) modulo 32. */
  lemma RotationMoves(w: Word, r: Rotation, j: nat)
    requires j < 32
    ensures BitIn(WordMachine().rot(w, r), (j + r as nat) % 32) <==> BitIn(w, j)
  {
    SameRotation(w, r);
    RotlMoves(w, r as nat, j);
  }

  /** Sums are sums of numbers modulo 2^32. */
  lemma SumIsSum(x: Word, y: Word)
    ensures Number(WordMachine().add(x, y)) == (Number(x) + Number(y)) % 0x1_0000_0000
  {
    NumberOfSum(x, y);
  }

  /** Byte k of a word are its bits 8k to 8k + 7. */
  lemma ByteIsByte(w: Word, k: nat, j: nat)
    requires k < 4 && j < 8
    ensures BitOf(WordMachine().byte(w, k), j) <==> BitIn(w, 8 * k + j)
  {
    BitOfByte(w, k, j);
  }
}
