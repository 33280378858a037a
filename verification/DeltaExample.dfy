/** A small delta as kit/Delta.hpp writes it, byte for byte. */
module DeltaExample {
  import opened Basics
  import opened Delta

  lemma OpsInBytes()
    ensures SerializeAll([CopyRows(2, 1, 0), NewRun(2, 0, [0x12345678])]) ==
            [99, 2, 1, 0] + [100, 2, 0, 1, 0x78, 0x56, 0x34, 0x12]
  {
    var copy, run: Op := CopyRows(2, 1, 0), NewRun(2, 0, [0x12345678]);
    PixelsInBytes();
    assert Serialize(run) == [100, 2, 0, 1] + [0x78, 0x56, 0x34, 0x12];
    hide PixelsBytes;
    assert [copy, run][1..] == [run] && [run][1..] == [];
    assert SerializeAll([run]) == Serialize(run) + [];
  }

  lemma PixelsInBytes()
    ensures PixelsBytes([0x12345678]) == [0x78, 0x56, 0x34, 0x12]
  {
    var p: Pixel := 0x12345678;
    assert PixelBytes(p) == [0x78, 0x56, 0x34, 0x12];
    assert [p][1..] == [];
  }

  lemma TwoOps(prev: seq<seq<Pixel>>, first: Op, second: Op, modular: bool)
    requires CanApply(prev, prev, first, modular)
    requires CanApply(prev, Apply(prev, prev, first, modular), second, modular)
    ensures ApplyAll(prev, [first, second], modular) ==
            Some(Apply(prev, Apply(prev, prev, first, modular), second, modular))
  {
    hide Apply, CanApply;
    assert [first, second][..1] == [first] && [first][..0] == [];
    assert ApplyAll(prev, [first], modular) == Some(Apply(prev, prev, first, modular));
  }

  lemma CopyApplied(a: Pixel, b: Pixel, c: Pixel, modular: bool)
    ensures var prev := [[a], [b], [c]];
            CanApply(prev, prev, CopyRows(2, 1, 0), modular) &&
            Apply(prev, prev, CopyRows(2, 1, 0), modular) == [[b], [c], [c]]
  {
  }

  lemma RunApplied(prev: seq<seq<Pixel>>, b: Pixel, c: Pixel, modular: bool)
    ensures var run: Op := NewRun(2, 0, [0x12345678]);
            CanApply(prev, [[b], [c], [c]], run, modular) &&
            Apply(prev, [[b], [c], [c]], run, modular) == [[b], [c], [0x12345678]]
  {
    assert [c][..0] + [0x12345678] + [c][1..] == [0x12345678];
  }

  /** A delta in bytes: the second row and the third go one row up, and the first pixel of the third
      row is overwritten. */
  lemma DeltaInBytes(a: Pixel, b: Pixel, c: Pixel, modular: bool)
    ensures Decode([[a], [b], [c]],
                   ['D' as Byte] + (['c' as Byte, 2, 1, 0] + ['d' as Byte, 2, 0, 1, 0x78, 0x56, 0x34, 0x12]),
                   modular) ==
            Some([[b], [c], [0x12345678]])
  {
    var copy, run: Op := CopyRows(2, 1, 0), NewRun(2, 0, [0x12345678]);
    var prev := [[a], [b], [c]];
    OpsInBytes();
    ParseSerialize([copy, run]);
    CopyApplied(a, b, c, modular);
    RunApplied(prev, b, c, modular);
    hide Parse, Apply, CanApply, SerializeAll;
    TwoOps(prev, copy, run, modular);
    var ops := ['c' as Byte, 2, 1, 0] + ['d' as Byte, 2, 0, 1, 0x78, 0x56, 0x34, 0x12];
    assert (['D' as Byte] + ops)[1..] == ops;
  }
}
