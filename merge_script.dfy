/** merge.py: the script's own `merge`, an index loop over `line`, and the script's example
    assertions about it. */
module MergeScript {
  import opened LineMerge

  /** merge.py's `merge`: the loop runs over the indices `k` of the line, skips zeros,
      writes every other value to slot `i` and combines it with the slot before when that
      one holds an equal value not made by a combination (`i > lastMerge`). It computes the
      same merged line as the value-iterating `LineMerge.Merge` of poc_2048.py. */
  method MergeByIndex(line: seq<int>) returns (r: seq<int>)
    ensures |r| == |line|
    ensures r == Merged(line)
  {
    var result := Zeros(|line|);
    var i, lastMerge := 0, 0;
    PassStart(|line|);
    for k := 0 to |line|
      invariant |Compact(line[..k])| <= k
      invariant PassState(result, |line|, i, lastMerge, Compact(line[..k]))
    {
      CompactStep(line, k);
      if line[k] == 0 {
        continue;
      }
      PassStep(result, |line|, i, lastMerge, Compact(line[..k]), line[k]);
      result := result[i := line[k]];
      if i > lastMerge && result[i - 1] == result[i] {
        result := result[i - 1 := result[i - 1] * 2][i := 0];
        lastMerge := i;
      } else {
        i := i + 1;
      }
    }
    assert line[..|line|] == line;
    PassEnd(result, |line|, i, lastMerge, Compact(line));
    r := result;
  }

  /** merge.py's module-level assertions, one per line 16 to 23 of the script. */
  lemma ModuleAssertions()
    ensures Merged([0, 0, 0, 0]) == [0, 0, 0, 0]
    ensures Merged([2, 0, 2, 2]) == [4, 2, 0, 0]
    ensures Merged([2, 0, 2, 4]) == [4, 4, 0, 0]
    ensures Merged([0, 0, 2, 2]) == [4, 0, 0, 0]
    ensures Merged([2, 2, 0, 0]) == [4, 0, 0, 0]
    ensures Merged([2, 2, 2, 2, 2]) == [4, 4, 2, 0, 0]
    ensures Merged([8, 16, 16, 8]) == [8, 32, 8, 0]
    ensures Merged([4, 4, 8, 0]) == [8, 8, 0, 0]
  {
    Assertion16();
    Assertion17();
    Assertion18();
    Assertion19();
    Assertion20();
    Assertion21();
    Assertion22();
    Assertion23();
  }

  lemma Assertion16()
    ensures Merged([0, 0, 0, 0]) == [0, 0, 0, 0]
  {
      assert Compact([0, 0, 0, 0]) == [] by {
        assert [0, 0, 0, 0][..3] == [0, 0, 0];
        assert [0, 0, 0][..2] == [0, 0];
        assert [0, 0][..1] == [0];
        assert [0][..0] == [];
      }
      assert Combine([]) == [] by {
      }
      assert Zeros(4) == [0, 0, 0, 0];
  }

  lemma Assertion17()
    ensures Merged([2, 0, 2, 2]) == [4, 2, 0, 0]
  {
      assert Compact([2, 0, 2, 2]) == [2, 2, 2] by {
        assert [2, 0, 2, 2][..3] == [2, 0, 2];
        assert [2, 0, 2][..2] == [2, 0];
        assert [2, 0][..1] == [2];
        assert [2][..0] == [];
      }
      assert Combine([2, 2, 2]) == [4, 2] by {
        assert [2, 2, 2][2..] == [2];
      }
      assert Zeros(2) == [0, 0];
  }

  lemma Assertion18()
    ensures Merged([2, 0, 2, 4]) == [4, 4, 0, 0]
  {
      assert Compact([2, 0, 2, 4]) == [2, 2, 4] by {
        assert [2, 0, 2, 4][..3] == [2, 0, 2];
        assert [2, 0, 2][..2] == [2, 0];
        assert [2, 0][..1] == [2];
        assert [2][..0] == [];
      }
      assert Combine([2, 2, 4]) == [4, 4] by {
        assert [2, 2, 4][2..] == [4];
      }
      assert Zeros(2) == [0, 0];
  }

  lemma Assertion19()
    ensures Merged([0, 0, 2, 2]) == [4, 0, 0, 0]
  {
      assert Compact([0, 0, 2, 2]) == [2, 2] by {
        assert [0, 0, 2, 2][..3] == [0, 0, 2];
        assert [0, 0, 2][..2] == [0, 0];
        assert [0, 0][..1] == [0];
        assert [0][..0] == [];
      }
      assert Combine([2, 2]) == [4] by {
        assert [2, 2][2..] == [];
      }
      assert Zeros(3) == [0, 0, 0];
  }

  lemma Assertion20()
    ensures Merged([2, 2, 0, 0]) == [4, 0, 0, 0]
  {
      assert Compact([2, 2, 0, 0]) == [2, 2] by {
        assert [2, 2, 0, 0][..3] == [2, 2, 0];
        assert [2, 2, 0][..2] == [2, 2];
        assert [2, 2][..1] == [2];
        assert [2][..0] == [];
      }
      assert Combine([2, 2]) == [4] by {
        assert [2, 2][2..] == [];
      }
      assert Zeros(3) == [0, 0, 0];
  }

  lemma Assertion21()
    ensures Merged([2, 2, 2, 2, 2]) == [4, 4, 2, 0, 0]
  {
      assert Compact([2, 2, 2, 2, 2]) == [2, 2, 2, 2, 2] by {
        assert [2, 2, 2, 2, 2][..4] == [2, 2, 2, 2];
        assert [2, 2, 2, 2][..3] == [2, 2, 2];
        assert [2, 2, 2][..2] == [2, 2];
        assert [2, 2][..1] == [2];
        assert [2][..0] == [];
      }
      assert Combine([2, 2, 2, 2, 2]) == [4, 4, 2] by {
        assert [2, 2, 2, 2, 2][2..] == [2, 2, 2];
        assert [2, 2, 2][2..] == [2];
      }
      assert Zeros(2) == [0, 0];
  }

  lemma Assertion22()
    ensures Merged([8, 16, 16, 8]) == [8, 32, 8, 0]
  {
      assert Compact([8, 16, 16, 8]) == [8, 16, 16, 8] by {
        assert [8, 16, 16, 8][..3] == [8, 16, 16];
        assert [8, 16, 16][..2] == [8, 16];
        assert [8, 16][..1] == [8];
        assert [8][..0] == [];
      }
      assert Combine([8, 16, 16, 8]) == [8, 32, 8] by {
        assert [8, 16, 16, 8][1..] == [16, 16, 8];
        assert [16, 16, 8][2..] == [8];
      }
      assert Zeros(1) == [0];
  }

  lemma Assertion23()
    ensures Merged([4, 4, 8, 0]) == [8, 8, 0, 0]
  {
      assert Compact([4, 4, 8, 0]) == [4, 4, 8] by {
        assert [4, 4, 8, 0][..3] == [4, 4, 8];
        assert [4, 4, 8][..2] == [4, 4];
        assert [4, 4][..1] == [4];
        assert [4][..0] == [];
      }
      assert Combine([4, 4, 8]) == [8, 8] by {
        assert [4, 4, 8][2..] == [8];
      }
      assert Zeros(2) == [0, 0];
  }
}
