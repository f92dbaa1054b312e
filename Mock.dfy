/**
 * The in-memory candidate store: a list of candidates that `AddAnime` grows,
 * queried by id and by slot, and the fixed list of eight sample candidates
 * that `AddMockAnime` loads.
 */
module Mock {
  import opened Wrappers
  import Models
  import MemoryModel

  type Anime = MemoryModel.Anime

  /** Where a slot's flag sits in the three-flag view of a candidate's slots. */
  function SlotIndex(slot: Models.Slot): (i: nat)
    ensures i < 3
  {
    match slot
    case First => 0
    case Second => 1
    case Third => 2
  }

  /**
   * A candidate given by its three slot flags, in slot order (the three slots
   * take the three distinct positions of the flag array).
   */
  function FromSlotFlags(id: int, name: string, episodes: int, slot: seq<bool>): (a: Anime)
    requires |slot| == 3
    ensures a.id == id && a.name == name && a.episodes == episodes
    ensures forall s :: a.MatchesSlot(s) == slot[SlotIndex(s)]
  {
    MemoryModel.Anime(id, name, episodes, slot[0], slot[1], slot[2])
  }

  /** The three flags of a candidate, read back through `MatchesSlot`. */
  function SlotFlags(a: Anime): seq<bool>
  {
    [a.MatchesSlot(Models.First), a.MatchesSlot(Models.Second), a.MatchesSlot(Models.Third)]
  }

  /** Building a candidate from flags and reading its slot membership back gives the flags. */
  lemma SlotFlagsRoundTrip(id: int, name: string, episodes: int, slot: seq<bool>)
    requires |slot| == 3
    ensures SlotFlags(FromSlotFlags(id, name, episodes, slot)) == slot
  {
  }

  /** The eight sample candidates, in the order they are loaded. */
  function MockItems(): (items: seq<Anime>)
    ensures |items| == 8
  {
    [ FromSlotFlags(1, "Aldnoah.Zero", 24, [true, false, false]),
      FromSlotFlags(2, "Bloom Into You", 13, [true, true, false]),
      FromSlotFlags(3, "Fairy Gone", 12, [true, false, false]),
      FromSlotFlags(4, "Iroduku: The World In Colors", 13, [true, false, false]),
      FromSlotFlags(5, "Bounen no Xamdou", 26, [true, true, false]),
      FromSlotFlags(6, "Kabaneri of the Iron Fortress", 12, [true, false, false]),
      FromSlotFlags(7, "Plastic Memories", 13, [true, false, false]),
      FromSlotFlags(8, "Kaguya S2", 12, [false, false, true]) ]
  }

  /** The position of the first candidate of `xs` with id `id`, or `|xs|` when there is none. */
  function FirstIndexWithId(xs: seq<Anime>, id: int): (k: nat)
    ensures k <= |xs|
    ensures forall j :: 0 <= j < k ==> xs[j].id != id
    ensures k < |xs| ==> xs[k].id == id
  {
    if xs == [] then 0
    else if xs[0].id == id then 0
    else 1 + FirstIndexWithId(xs[1..], id)
  }

  /** The candidates of `xs` that belong to `slot`, in their order in `xs`. */
  function InSlot(xs: seq<Anime>, slot: Models.Slot): (r: seq<Anime>)
    ensures |r| <= |xs|
    ensures forall a :: a in r <==> a in xs && a.MatchesSlot(slot)
  {
    if xs == [] then []
    else
      var last := xs[|xs| - 1];
      assert xs == xs[..|xs| - 1] + [last];
      InSlot(xs[..|xs| - 1], slot) + (if last.MatchesSlot(slot) then [last] else [])
  }

  /** Filtering by slot keeps order: a list split anywhere filters to the two halves' results. */
  lemma {:induction false} InSlotKeepsOrder(xs: seq<Anime>, ys: seq<Anime>, slot: Models.Slot)
    ensures InSlot(xs + ys, slot) == InSlot(xs, slot) + InSlot(ys, slot)
  {
    if ys == [] {
      assert xs + ys == xs;
    } else {
      var init, last := ys[..|ys| - 1], ys[|ys| - 1];
      var tail := if last.MatchesSlot(slot) then [last] else [];
      assert ys == init + [last];
      assert xs + ys == (xs + init) + [last];
      calc {
        InSlot(xs + ys, slot);
        == { InSlotSnoc(xs + init, last, slot); }
        InSlot(xs + init, slot) + tail;
        == { InSlotKeepsOrder(xs, init, slot); }
        (InSlot(xs, slot) + InSlot(init, slot)) + tail;
        ==
        InSlot(xs, slot) + (InSlot(init, slot) + tail);
        == { InSlotSnoc(init, last, slot); }
        InSlot(xs, slot) + InSlot(ys, slot);
      }
    }
  }

  /** Appending one candidate appends it to the filtered list iff it belongs to `slot`. */
  lemma InSlotSnoc(xs: seq<Anime>, a: Anime, slot: Models.Slot)
    ensures InSlot(xs + [a], slot) == InSlot(xs, slot) + (if a.MatchesSlot(slot) then [a] else [])
  {
  }

  /** The eight samples have ids 1-8, in order. */
  lemma MockItemsIds()
    ensures MemoryModel.Ids(MockItems()) == [1, 2, 3, 4, 5, 6, 7, 8]
  {
  }

  /** Exactly the samples with ids 1-7 belong to the first slot. */
  lemma MockItemsFirstSlot()
    ensures InSlot(MockItems(), Models.First) == MockItems()[..7]
  {
    var items := MockItems();
    var init := items[..7];
    assert forall i :: 0 <= i < |init| ==> init[i].MatchesSlot(Models.First);
    InSlotAll(init, Models.First);
    assert items[..|items| - 1] == init;
    assert !items[7].MatchesSlot(Models.First);
  }

  /** A list all of whose candidates belong to `slot` filters to itself. */
  lemma {:induction false} InSlotAll(xs: seq<Anime>, slot: Models.Slot)
    requires forall i :: 0 <= i < |xs| ==> xs[i].MatchesSlot(slot)
    ensures InSlot(xs, slot) == xs
  {
    if xs != [] {
      var init := xs[..|xs| - 1];
      InSlotAll(init, slot);
      assert xs[|xs| - 1].MatchesSlot(slot);
      assert init + [xs[|xs| - 1]] == xs;
    }
  }

  /** A list none of whose candidates belongs to `slot` filters to nothing. */
  lemma {:induction false} InSlotNone(xs: seq<Anime>, slot: Models.Slot)
    requires forall i :: 0 <= i < |xs| ==> !xs[i].MatchesSlot(slot)
    ensures InSlot(xs, slot) == []
  {
    if xs != [] {
      InSlotNone(xs[..|xs| - 1], slot);
    }
  }

  class MockModel {
    var anime: seq<Anime>

    /** An empty store. */
    constructor ()
      ensures anime == []
    {
      anime := [];
    }

    /** Appends a candidate after the existing ones. */
    method AddAnime(a: Anime)
      modifies this
      ensures anime == old(anime) + [a]
    {
      anime := anime + [a];
    }

    /** Appends the eight sample candidates, in order. */
    method AddMockAnime()
      modifies this
      ensures anime == old(anime) + MockItems()
    {
      var items := MockItems();
      for i := 0 to |items|
        invariant anime == old(anime) + items[..i]
      {
        assert items[..i + 1] == items[..i] + [items[i]];
        AddAnime(items[i]);
      }
      assert items[..|items|] == items;
    }

    /** Every stored candidate, in insertion order. */
    function GetAnime(): (all: seq<Anime>)
      reads this
      ensures |all| == |anime| && forall i :: 0 <= i < |all| ==> all[i] == anime[i]
    {
      anime
    }

    /** The earliest stored candidate with id `id`; `None` exactly when no candidate has it. */
    function GetAnimeById(id: int): (found: Option<Anime>)
      reads this
      ensures found.None? <==> forall i :: 0 <= i < |anime| ==> anime[i].id != id
      ensures found.Some? ==>
                (exists k :: 0 <= k < |anime| && anime[k] == found.value && found.value.id == id
                                && forall j :: 0 <= j < k ==> anime[j].id != id)
    {
      var k := FirstIndexWithId(anime, id);
      if k < |anime| then
        assert anime[k] == anime[k];
        Some(anime[k])
      else None
    }

    /** The stored candidates that belong to `slot`, in insertion order. */
    function GetAnimeForSlot(slot: Models.Slot): (found: seq<Anime>)
      reads this
      ensures forall a :: a in found <==> a in anime && a.MatchesSlot(slot)
      ensures found == InSlot(anime, slot)
    {
      InSlot(anime, slot)
    }
  }

  /**
   * A fresh store loaded with the samples holds them in order, and its
   * first-slot query returns the first seven of them (ids 1-7, by
   * `MockItemsIds`).
   */
  method LoadedMockStore() returns (m: MockModel)
    ensures fresh(m)
    ensures m.GetAnime() == MockItems()
    ensures m.GetAnimeForSlot(Models.First) == MockItems()[..7]
  {
    m := new MockModel();
    m.AddMockAnime();
    MockItemsFirstSlot();
  }
}
