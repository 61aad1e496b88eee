/** The sample matrix at the end of dynamic.py, worked through the model:
    the cheapest tour costs 80, and since the closing scan replaces its best
    city only on a strictly smaller cost, the tour returned is
    [0, 2, 3, 1, 0] and not the equally cheap [0, 1, 3, 2, 0]. */
module Sample {
  import opened Bitmask
  import opened Tours
  import opened HeldKarp
  import opened Dynamic

  /** The four-city distance matrix of the sample. */
  const Matrix: seq<seq<int>> := [[0, 10, 15, 20], [10, 0, 35, 25], [15, 35, 0, 30], [20, 25, 30, 0]]

  /** The settled cells of mask 1 (cities 0). */
  lemma SampleMask1()
    ensures Final(Matrix, 1, 0) == Cell(Fin(0), -1)
    ensures Final(Matrix, 1, 1) == Unreached
    ensures Final(Matrix, 1, 2) == Unreached
    ensures Final(Matrix, 1, 3) == Unreached
  {
  }

  /** The settled cells of mask 3 (cities 0, 1). */
  lemma SampleMask3()
    ensures Final(Matrix, 3, 0) == Unreached
    ensures Final(Matrix, 3, 1) == Cell(Fin(10), 0)
    ensures Final(Matrix, 3, 2) == Unreached
    ensures Final(Matrix, 3, 3) == Unreached
  {
    ZeroColumn(Matrix, 3);
    SampleMask1();
  }

  /** The settled cells of mask 5 (cities 0, 2). */
  lemma SampleMask5()
    ensures Final(Matrix, 5, 0) == Unreached
    ensures Final(Matrix, 5, 1) == Unreached
    ensures Final(Matrix, 5, 2) == Cell(Fin(15), 0)
    ensures Final(Matrix, 5, 3) == Unreached
  {
    ZeroColumn(Matrix, 5);
    SampleMask1();
  }

  /** The settled cells of mask 9 (cities 0, 3). */
  lemma SampleMask9()
    ensures Final(Matrix, 9, 0) == Unreached
    ensures Final(Matrix, 9, 1) == Unreached
    ensures Final(Matrix, 9, 2) == Unreached
    ensures Final(Matrix, 9, 3) == Cell(Fin(20), 0)
  {
    ZeroColumn(Matrix, 9);
    SampleMask1();
  }

  /** The settled cells of mask 7 (cities 0, 1, 2). */
  lemma SampleMask7()
    ensures Final(Matrix, 7, 0) == Unreached
    ensures Final(Matrix, 7, 1) == Cell(Fin(50), 2)
    ensures Final(Matrix, 7, 2) == Cell(Fin(45), 1)
    ensures Final(Matrix, 7, 3) == Unreached
  {
    ZeroColumn(Matrix, 7);
    SampleMask5();
    SampleMask3();
  }

  /** The settled cells of mask 11 (cities 0, 1, 3). */
  lemma SampleMask11()
    ensures Final(Matrix, 11, 0) == Unreached
    ensures Final(Matrix, 11, 1) == Cell(Fin(45), 3)
    ensures Final(Matrix, 11, 2) == Unreached
    ensures Final(Matrix, 11, 3) == Cell(Fin(35), 1)
  {
    ZeroColumn(Matrix, 11);
    SampleMask9();
    SampleMask3();
  }

  /** The settled cells of mask 13 (cities 0, 2, 3). */
  lemma SampleMask13()
    ensures Final(Matrix, 13, 0) == Unreached
    ensures Final(Matrix, 13, 1) == Unreached
    ensures Final(Matrix, 13, 2) == Cell(Fin(50), 3)
    ensures Final(Matrix, 13, 3) == Cell(Fin(45), 2)
  {
    ZeroColumn(Matrix, 13);
    SampleMask9();
    SampleMask5();
  }

  /** The settled cells of mask 15 (all four cities), one source mask at a time. */
  lemma SampleMask15()
    ensures Final(Matrix, 15, 0) == Unreached
    ensures Final(Matrix, 15, 1) == Cell(Fin(70), 3)
    ensures Final(Matrix, 15, 2) == Cell(Fin(65), 3)
    ensures Final(Matrix, 15, 3) == Cell(Fin(75), 1)
  {
    ZeroColumn(Matrix, 15);
    SampleFull1();
    SampleFull2();
    SampleFull3();
  }

  lemma SampleFull1()
    ensures Final(Matrix, 15, 1) == Cell(Fin(70), 3)
  {
    SampleMask13();
  }

  lemma SampleFull2()
    ensures Final(Matrix, 15, 2) == Cell(Fin(65), 3)
  {
    SampleMask11();
  }

  lemma SampleFull3()
    ensures Final(Matrix, 15, 3) == Cell(Fin(75), 1)
  {
    SampleMask7();
  }

  /** The sample is a 4 x 4 matrix, so all_visited is 15. */
  lemma SampleShape()
    ensures IsMatrix(Matrix) && |Matrix| == 4 && FullMask(4) == 15
  {
  }

  /** The parent walk from (all cities, 1) is 0, 2, 3, 1, built from the
      seed outwards. */
  lemma SampleWalk5()
    ensures Walk(Matrix, 5, 2) == [0, 2]
  {
    SampleShape();
    SampleMask5();
    WalkUnfold(Matrix, 5, 2);
    assert FlipBit(5, 2) == 1;
    SeedCell(Matrix);
  }

  lemma SampleWalk13()
    ensures Walk(Matrix, 13, 3) == [0, 2, 3]
  {
    SampleShape();
    SampleMask13();
    WalkUnfold(Matrix, 13, 3);
    assert FlipBit(13, 3) == 5;
    SampleWalk5();
  }

  lemma SampleWalk()
    ensures Walk(Matrix, 15, 1) == [0, 2, 3, 1]
  {
    SampleShape();
    SampleFull1();
    WalkUnfold(Matrix, 15, 1);
    assert FlipBit(15, 1) == 13;
    SampleWalk13();
  }

  /** The closing costs DP[15][u] + D[u][0] of the sample: 80, 80 and 95. */
  lemma SampleClosing()
    ensures Closing(Matrix, 1) == Fin(80)
    ensures Closing(Matrix, 2) == Fin(80)
    ensures Closing(Matrix, 3) == Fin(95)
  {
    SampleShape();
    SampleMask15();
  }

  /** tsp_dynamic on the sample returns cost 80 and the tour [0, 2, 3, 1, 0]:
      cities 1 and 2 tie at 80 as last city, and the strict comparison keeps
      the first. */
  method SampleRun() returns (cost: Ext, tour: seq<int>)
    ensures cost == Fin(80) && tour == [0, 2, 3, 1, 0]
  {
    SampleShape();
    SampleClosing();
    SampleWalk();
    cost, tour := TspDynamic(Matrix);
    var last := tour[3];
    if last != 1 {
      assert false;
    }
  }
}
