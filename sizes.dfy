/** The fixed ascending list of table sizes (HashMap.h, sizes_) and the
    proof that every entry is prime. Primality is established by trial
    division; the chains of assertions below are the computation, split
    into pieces small enough for the verifier to evaluate. */
module TableSizes {
  import opened Primes

  const Sizes: seq<nat> := [3, 7, 17, 37, 79, 163, 331, 673, 1361, 2729, 5471, 10949,
                            21911, 43853, 87719, 175447, 350899, 701819, 1403641]

  lemma TrialDivision1361()
    ensures NoFactorFrom(1361, 5)
  {
    assert NoFactorFrom(1361, 35);
    assert NoFactorFrom(1361, 17);
    assert NoFactorFrom(1361, 5);
  }

  lemma TrialDivision2729()
    ensures NoFactorFrom(2729, 5)
  {
    assert NoFactorFrom(2729, 47);
    assert NoFactorFrom(2729, 29);
    assert NoFactorFrom(2729, 11);
    assert NoFactorFrom(2729, 5);
  }

  lemma TrialDivision5471()
    ensures NoFactorFrom(5471, 5)
  {
    assert NoFactorFrom(5471, 71);
    assert NoFactorFrom(5471, 53);
    assert NoFactorFrom(5471, 35);
    assert NoFactorFrom(5471, 17);
    assert NoFactorFrom(5471, 5);
  }

  lemma TrialDivision10949()
    ensures NoFactorFrom(10949, 5)
  {
    assert NoFactorFrom(10949, 101);
    assert NoFactorFrom(10949, 83);
    assert NoFactorFrom(10949, 65);
    assert NoFactorFrom(10949, 47);
    assert NoFactorFrom(10949, 29);
    assert NoFactorFrom(10949, 11);
    assert NoFactorFrom(10949, 5);
  }

  lemma TrialDivision21911()
    ensures NoFactorFrom(21911, 5)
  {
    assert NoFactorFrom(21911, 143);
    assert NoFactorFrom(21911, 125);
    assert NoFactorFrom(21911, 107);
    assert NoFactorFrom(21911, 89);
    assert NoFactorFrom(21911, 71);
    assert NoFactorFrom(21911, 53);
    assert NoFactorFrom(21911, 35);
    assert NoFactorFrom(21911, 17);
    assert NoFactorFrom(21911, 5);
  }

  lemma TrialDivision43853_A()
    ensures NoFactorFrom(43853, 47)
  {
    assert NoFactorFrom(43853, 209);
    assert NoFactorFrom(43853, 191);
    assert NoFactorFrom(43853, 173);
    assert NoFactorFrom(43853, 155);
    assert NoFactorFrom(43853, 137);
    assert NoFactorFrom(43853, 119);
    assert NoFactorFrom(43853, 101);
    assert NoFactorFrom(43853, 83);
    assert NoFactorFrom(43853, 65);
    assert NoFactorFrom(43853, 47);
  }

  lemma TrialDivision43853_B()
    ensures NoFactorFrom(43853, 5)
  {
    TrialDivision43853_A();
    assert NoFactorFrom(43853, 29);
    assert NoFactorFrom(43853, 11);
    assert NoFactorFrom(43853, 5);
  }

  lemma TrialDivision87719_A()
    ensures NoFactorFrom(87719, 131)
  {
    assert NoFactorFrom(87719, 293);
    assert NoFactorFrom(87719, 275);
    assert NoFactorFrom(87719, 257);
    assert NoFactorFrom(87719, 239);
    assert NoFactorFrom(87719, 221);
    assert NoFactorFrom(87719, 203);
    assert NoFactorFrom(87719, 185);
    assert NoFactorFrom(87719, 167);
    assert NoFactorFrom(87719, 149);
    assert NoFactorFrom(87719, 131);
  }

  lemma TrialDivision87719_B()
    ensures NoFactorFrom(87719, 5)
  {
    TrialDivision87719_A();
    assert NoFactorFrom(87719, 113);
    assert NoFactorFrom(87719, 95);
    assert NoFactorFrom(87719, 77);
    assert NoFactorFrom(87719, 59);
    assert NoFactorFrom(87719, 41);
    assert NoFactorFrom(87719, 23);
    assert NoFactorFrom(87719, 5);
  }

  lemma TrialDivision175447_A()
    ensures NoFactorFrom(175447, 251)
  {
    assert NoFactorFrom(175447, 413);
    assert NoFactorFrom(175447, 395);
    assert NoFactorFrom(175447, 377);
    assert NoFactorFrom(175447, 359);
    assert NoFactorFrom(175447, 341);
    assert NoFactorFrom(175447, 323);
    assert NoFactorFrom(175447, 305);
    assert NoFactorFrom(175447, 287);
    assert NoFactorFrom(175447, 269);
    assert NoFactorFrom(175447, 251);
  }

  lemma TrialDivision175447_B()
    ensures NoFactorFrom(175447, 71)
  {
    TrialDivision175447_A();
    assert NoFactorFrom(175447, 233);
    assert NoFactorFrom(175447, 215);
    assert NoFactorFrom(175447, 197);
    assert NoFactorFrom(175447, 179);
    assert NoFactorFrom(175447, 161);
    assert NoFactorFrom(175447, 143);
    assert NoFactorFrom(175447, 125);
    assert NoFactorFrom(175447, 107);
    assert NoFactorFrom(175447, 89);
    assert NoFactorFrom(175447, 71);
  }

  lemma TrialDivision175447_C()
    ensures NoFactorFrom(175447, 5)
  {
    TrialDivision175447_B();
    assert NoFactorFrom(175447, 53);
    assert NoFactorFrom(175447, 35);
    assert NoFactorFrom(175447, 17);
    assert NoFactorFrom(175447, 5);
  }

  lemma TrialDivision350899_A()
    ensures NoFactorFrom(350899, 425)
  {
    assert NoFactorFrom(350899, 587);
    assert NoFactorFrom(350899, 569);
    assert NoFactorFrom(350899, 551);
    assert NoFactorFrom(350899, 533);
    assert NoFactorFrom(350899, 515);
    assert NoFactorFrom(350899, 497);
    assert NoFactorFrom(350899, 479);
    assert NoFactorFrom(350899, 461);
    assert NoFactorFrom(350899, 443);
    assert NoFactorFrom(350899, 425);
  }

  lemma TrialDivision350899_B()
    ensures NoFactorFrom(350899, 245)
  {
    TrialDivision350899_A();
    assert NoFactorFrom(350899, 407);
    assert NoFactorFrom(350899, 389);
    assert NoFactorFrom(350899, 371);
    assert NoFactorFrom(350899, 353);
    assert NoFactorFrom(350899, 335);
    assert NoFactorFrom(350899, 317);
    assert NoFactorFrom(350899, 299);
    assert NoFactorFrom(350899, 281);
    assert NoFactorFrom(350899, 263);
    assert NoFactorFrom(350899, 245);
  }

  lemma TrialDivision350899_C()
    ensures NoFactorFrom(350899, 65)
  {
    TrialDivision350899_B();
    assert NoFactorFrom(350899, 227);
    assert NoFactorFrom(350899, 209);
    assert NoFactorFrom(350899, 191);
    assert NoFactorFrom(350899, 173);
    assert NoFactorFrom(350899, 155);
    assert NoFactorFrom(350899, 137);
    assert NoFactorFrom(350899, 119);
    assert NoFactorFrom(350899, 101);
    assert NoFactorFrom(350899, 83);
    assert NoFactorFrom(350899, 65);
  }

  lemma TrialDivision350899_D()
    ensures NoFactorFrom(350899, 5)
  {
    TrialDivision350899_C();
    assert NoFactorFrom(350899, 47);
    assert NoFactorFrom(350899, 29);
    assert NoFactorFrom(350899, 11);
    assert NoFactorFrom(350899, 5);
  }

  lemma TrialDivision701819_A()
    ensures NoFactorFrom(701819, 671)
  {
    assert NoFactorFrom(701819, 833);
    assert NoFactorFrom(701819, 815);
    assert NoFactorFrom(701819, 797);
    assert NoFactorFrom(701819, 779);
    assert NoFactorFrom(701819, 761);
    assert NoFactorFrom(701819, 743);
    assert NoFactorFrom(701819, 725);
    assert NoFactorFrom(701819, 707);
    assert NoFactorFrom(701819, 689);
    assert NoFactorFrom(701819, 671);
  }

  lemma TrialDivision701819_B()
    ensures NoFactorFrom(701819, 491)
  {
    TrialDivision701819_A();
    assert NoFactorFrom(701819, 653);
    assert NoFactorFrom(701819, 635);
    assert NoFactorFrom(701819, 617);
    assert NoFactorFrom(701819, 599);
    assert NoFactorFrom(701819, 581);
    assert NoFactorFrom(701819, 563);
    assert NoFactorFrom(701819, 545);
    assert NoFactorFrom(701819, 527);
    assert NoFactorFrom(701819, 509);
    assert NoFactorFrom(701819, 491);
  }

  lemma TrialDivision701819_C()
    ensures NoFactorFrom(701819, 311)
  {
    TrialDivision701819_B();
    assert NoFactorFrom(701819, 473);
    assert NoFactorFrom(701819, 455);
    assert NoFactorFrom(701819, 437);
    assert NoFactorFrom(701819, 419);
    assert NoFactorFrom(701819, 401);
    assert NoFactorFrom(701819, 383);
    assert NoFactorFrom(701819, 365);
    assert NoFactorFrom(701819, 347);
    assert NoFactorFrom(701819, 329);
    assert NoFactorFrom(701819, 311);
  }

  lemma TrialDivision701819_D()
    ensures NoFactorFrom(701819, 131)
  {
    TrialDivision701819_C();
    assert NoFactorFrom(701819, 293);
    assert NoFactorFrom(701819, 275);
    assert NoFactorFrom(701819, 257);
    assert NoFactorFrom(701819, 239);
    assert NoFactorFrom(701819, 221);
    assert NoFactorFrom(701819, 203);
    assert NoFactorFrom(701819, 185);
    assert NoFactorFrom(701819, 167);
    assert NoFactorFrom(701819, 149);
    assert NoFactorFrom(701819, 131);
  }

  lemma TrialDivision701819_E()
    ensures NoFactorFrom(701819, 5)
  {
    TrialDivision701819_D();
    assert NoFactorFrom(701819, 113);
    assert NoFactorFrom(701819, 95);
    assert NoFactorFrom(701819, 77);
    assert NoFactorFrom(701819, 59);
    assert NoFactorFrom(701819, 41);
    assert NoFactorFrom(701819, 23);
    assert NoFactorFrom(701819, 5);
  }

  lemma TrialDivision1403641_A()
    ensures NoFactorFrom(1403641, 1019)
  {
    assert NoFactorFrom(1403641, 1181);
    assert NoFactorFrom(1403641, 1163);
    assert NoFactorFrom(1403641, 1145);
    assert NoFactorFrom(1403641, 1127);
    assert NoFactorFrom(1403641, 1109);
    assert NoFactorFrom(1403641, 1091);
    assert NoFactorFrom(1403641, 1073);
    assert NoFactorFrom(1403641, 1055);
    assert NoFactorFrom(1403641, 1037);
    assert NoFactorFrom(1403641, 1019);
  }

  lemma TrialDivision1403641_B()
    ensures NoFactorFrom(1403641, 839)
  {
    TrialDivision1403641_A();
    assert NoFactorFrom(1403641, 1001);
    assert NoFactorFrom(1403641, 983);
    assert NoFactorFrom(1403641, 965);
    assert NoFactorFrom(1403641, 947);
    assert NoFactorFrom(1403641, 929);
    assert NoFactorFrom(1403641, 911);
    assert NoFactorFrom(1403641, 893);
    assert NoFactorFrom(1403641, 875);
    assert NoFactorFrom(1403641, 857);
    assert NoFactorFrom(1403641, 839);
  }

  lemma TrialDivision1403641_C()
    ensures NoFactorFrom(1403641, 659)
  {
    TrialDivision1403641_B();
    assert NoFactorFrom(1403641, 821);
    assert NoFactorFrom(1403641, 803);
    assert NoFactorFrom(1403641, 785);
    assert NoFactorFrom(1403641, 767);
    assert NoFactorFrom(1403641, 749);
    assert NoFactorFrom(1403641, 731);
    assert NoFactorFrom(1403641, 713);
    assert NoFactorFrom(1403641, 695);
    assert NoFactorFrom(1403641, 677);
    assert NoFactorFrom(1403641, 659);
  }

  lemma TrialDivision1403641_D()
    ensures NoFactorFrom(1403641, 479)
  {
    TrialDivision1403641_C();
    assert NoFactorFrom(1403641, 641);
    assert NoFactorFrom(1403641, 623);
    assert NoFactorFrom(1403641, 605);
    assert NoFactorFrom(1403641, 587);
    assert NoFactorFrom(1403641, 569);
    assert NoFactorFrom(1403641, 551);
    assert NoFactorFrom(1403641, 533);
    assert NoFactorFrom(1403641, 515);
    assert NoFactorFrom(1403641, 497);
    assert NoFactorFrom(1403641, 479);
  }

  lemma TrialDivision1403641_E()
    ensures NoFactorFrom(1403641, 299)
  {
    TrialDivision1403641_D();
    assert NoFactorFrom(1403641, 461);
    assert NoFactorFrom(1403641, 443);
    assert NoFactorFrom(1403641, 425);
    assert NoFactorFrom(1403641, 407);
    assert NoFactorFrom(1403641, 389);
    assert NoFactorFrom(1403641, 371);
    assert NoFactorFrom(1403641, 353);
    assert NoFactorFrom(1403641, 335);
    assert NoFactorFrom(1403641, 317);
    assert NoFactorFrom(1403641, 299);
  }

  lemma TrialDivision1403641_F()
    ensures NoFactorFrom(1403641, 119)
  {
    TrialDivision1403641_E();
    assert NoFactorFrom(1403641, 281);
    assert NoFactorFrom(1403641, 263);
    assert NoFactorFrom(1403641, 245);
    assert NoFactorFrom(1403641, 227);
    assert NoFactorFrom(1403641, 209);
    assert NoFactorFrom(1403641, 191);
    assert NoFactorFrom(1403641, 173);
    assert NoFactorFrom(1403641, 155);
    assert NoFactorFrom(1403641, 137);
    assert NoFactorFrom(1403641, 119);
  }

  lemma TrialDivision1403641_G()
    ensures NoFactorFrom(1403641, 5)
  {
    TrialDivision1403641_F();
    assert NoFactorFrom(1403641, 101);
    assert NoFactorFrom(1403641, 83);
    assert NoFactorFrom(1403641, 65);
    assert NoFactorFrom(1403641, 47);
    assert NoFactorFrom(1403641, 29);
    assert NoFactorFrom(1403641, 11);
    assert NoFactorFrom(1403641, 5);
  }

  /** Every size is at least 3 and more than doubles the one before it, so a
      table that is just over half full fits in the next size at most half
      full. */
  lemma SizesGrow(i: nat)
    requires i < |Sizes|
    ensures Sizes[i] >= 3
    ensures i + 1 < |Sizes| ==> Sizes[i + 1] > 2 * Sizes[i]
  {
  }

  /** When claiming one slot takes a table from at most half full to more
      than half full, and the size is not the last one, the next size exists
      and holds the claimed slots at most half full. */
  lemma NextSizeFits(i: nat, c: nat)
    requires i < |Sizes| && Sizes[i] < 2 * c <= Sizes[i] + 2
    requires i + 1 < |Sizes| || 2 * c <= Sizes[i]
    ensures i + 1 < |Sizes| && 2 * c <= Sizes[i + 1]
  {
    SizesGrow(i);
  }

  /** Every table size is prime. */
  lemma SizeIsPrime(i: nat)
    requires i < |Sizes|
    ensures IsPrime(Sizes[i])
  {
    if i == 0 {
      assert !Divides(2, 3);
    } else if i == 1 {
      PrimeByTrialDivision(7);
    } else if i == 2 {
      PrimeByTrialDivision(17);
    } else if i == 3 {
      PrimeByTrialDivision(37);
    } else if i == 4 {
      PrimeByTrialDivision(79);
    } else if i == 5 {
      PrimeByTrialDivision(163);
    } else if i == 6 {
      PrimeByTrialDivision(331);
    } else if i == 7 {
      PrimeByTrialDivision(673);
    } else if i == 8 {
      TrialDivision1361(); PrimeByTrialDivision(1361);
    } else if i == 9 {
      TrialDivision2729(); PrimeByTrialDivision(2729);
    } else if i == 10 {
      TrialDivision5471(); PrimeByTrialDivision(5471);
    } else if i == 11 {
      TrialDivision10949(); PrimeByTrialDivision(10949);
    } else if i == 12 {
      TrialDivision21911(); PrimeByTrialDivision(21911);
    } else if i == 13 {
      TrialDivision43853_B(); PrimeByTrialDivision(43853);
    } else if i == 14 {
      TrialDivision87719_B(); PrimeByTrialDivision(87719);
    } else if i == 15 {
      TrialDivision175447_C(); PrimeByTrialDivision(175447);
    } else if i == 16 {
      TrialDivision350899_D(); PrimeByTrialDivision(350899);
    } else if i == 17 {
      TrialDivision701819_E(); PrimeByTrialDivision(701819);
    } else if i == 18 {
      TrialDivision1403641_G(); PrimeByTrialDivision(1403641);
    }
  }
}
