/** Concrete situations the mod browser is expected to handle. */
module Scenarios {
  import opened Wrappers
  import opened Manifests
  import opened ModList
  import opened TitleOrder
  import opened Paging

  function Mod(id: string, title: string, hidden: bool): Manifest {
    Manifest(id, title, None, None, "", hidden, Unreadable, Unreadable)
  }

  /** Two visible mods and a hidden one: the list is the two in title order, and neither paging button shows. */
  lemma TwoVisibleMods()
    ensures var ra, cnc, hidden := Mod("ra", "Red Alert", false), Mod("cnc", "Tiberian Dawn", false), Mod("hidden1", "", true);
            var visible := VisibleMods([ra, cnc, hidden]);
            && visible == [ra, cnc]
            && PageLength(0, |visible|) == 2 && !PrevVisible(0) && !NextVisible(0, |visible|)
  {
    var ra, cnc, hidden := Mod("ra", "Red Alert", false), Mod("cnc", "Tiberian Dawn", false), Mod("hidden1", "", true);
    assert NotHidden([ra, cnc, hidden]) == [ra, cnc] by {
      assert [ra, cnc, hidden][1..] == [cnc, hidden];
      assert [cnc, hidden][1..] == [hidden];
      assert [hidden][1..] == [];
      assert NotHidden([hidden]) == [];
      assert NotHidden([cnc, hidden]) == [cnc];
    }
    assert Leq("Red Alert", "Tiberian Dawn");
    assert SortByTitle([cnc]) == [cnc] by { assert [cnc][1..] == []; }
    assert [ra, cnc][1..] == [cnc];
  }

  /** Selecting the seventh of ten mods on the first page scrolls to offset 2. */
  lemma SelectSeventhOfTen()
    ensures ScrollOffset(6, 0) == 2 && ReachableOffset(2, 10)
  {
  }
}
