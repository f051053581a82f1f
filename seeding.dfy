/** Seeding the labs (`populate_labs`): every lab row is deleted, then each
    listed lab whose name was not already present is created together with
    its stated number of free computers. The computer rows of earlier runs are
    not deleted. */
module Seeding {
  import opened Tables
  import opened Reservation

  /** One entry of the seeding list: a lab name and how many computers it gets. */
  datatype LabSpec = LabSpec(name: string, count: nat)

  /** The list the application seeds at start-up. */
  const DEFAULT_LABS: seq<LabSpec> := [
    LabSpec("Lab 120", 20),
    LabSpec("Lab L44", 15),
    LabSpec("Lab 170", 10),
    LabSpec("Lab 210", 10),
    LabSpec("Lab 128", 10)
  ]

  /** The names of the given lab rows, in order (`existing_lab_names`). */
  function Names(labs: seq<Lab>): (r: seq<string>)
    ensures |r| == |labs| && forall i :: 0 <= i < |labs| ==> r[i] == labs[i].name
  {
    if labs == [] then [] else [labs[0].name] + Names(labs[1..])
  }

  /** The names in a seeding list are pairwise different; a repeated name
      would violate the unique constraint on the lab name. */
  ghost predicate NamesDistinct(data: seq<LabSpec>) {
    forall j, k :: 0 <= j < |data| && 0 <= k < |data| && data[j].name == data[k].name ==> j == k
  }

  /** The total number of computers a seeding list asks for. */
  function Total(data: seq<LabSpec>): nat {
    if data == [] then 0 else data[0].count + Total(data[1..])
  }

  /** `count` new, free computers of lab `labId`, keyed after key `last`. */
  function Block(labId: int, last: nat, count: nat): seq<Computer> {
    seq(count, k requires 0 <= k < count => Computer(last + k + 1, labId, false))
  }

  /** The seeding loop, one entry at a time: skip a name already present,
      otherwise append the lab row (keyed one past the last lab) and then its
      computers (keyed one past the last computer). */
  function Populate(data: seq<LabSpec>, existing: seq<string>, labs: seq<Lab>, cs: seq<Computer>): (seq<Lab>, seq<Computer>)
    decreases |data|
  {
    if data == [] then (labs, cs)
    else if data[0].name in existing then Populate(data[1..], existing, labs, cs)
    else Populate(data[1..], existing, labs + [Lab(|labs| + 1, data[0].name)], cs + Block(|labs| + 1, |cs|, data[0].count))
  }

  /** The whole of `populate_labs`: the lab table is emptied first, so the
      names it then compares against are those of no lab at all. */
  function Seed(st: State, data: seq<LabSpec>): State {
    var cleared: seq<Lab> := [];
    var r := Populate(data, Names(cleared), cleared, st.computers);
    st.(labs := r.0, computers := r.1)
  }

  // ---------------------------------------------------------------------------
  // A closed form of the seeding loop
  // ---------------------------------------------------------------------------

  /** The lab rows for `data`, keyed after key `base`. */
  function SeededLabs(data: seq<LabSpec>, base: nat): (r: seq<Lab>)
    ensures |r| == |data|
    ensures forall j :: 0 <= j < |data| ==> r[j] == Lab(base + j + 1, data[j].name)
  {
    if data == [] then [] else [Lab(base + 1, data[0].name)] + SeededLabs(data[1..], base + 1)
  }

  /** The computer rows for `data`: the labs are keyed after `labBase`, the
      computers after `base`. */
  function SeededComputers(data: seq<LabSpec>, labBase: nat, base: nat): (r: seq<Computer>)
    ensures |r| == Total(data)
  {
    if data == [] then []
    else Block(labBase + 1, base, data[0].count) + SeededComputers(data[1..], labBase + 1, base + data[0].count)
  }

  /** The seeded computers are keyed in order after `base`, are free, and
      belong to the seeded labs. */
  lemma {:induction false} SeededComputersShape(data: seq<LabSpec>, labBase: nat, base: nat, k: nat)
    requires k < Total(data)
    ensures var c := SeededComputers(data, labBase, base)[k];
      c.id == base + k + 1 && !c.isBooked && labBase < c.labId <= labBase + |data|
  {
    var n := data[0].count;
    if k >= n {
      SeededComputersShape(data[1..], labBase + 1, base + n, k - n);
    }
  }

  /** When no listed name is already present, the loop appends exactly the
      closed form. */
  lemma {:induction false} PopulateAppends(data: seq<LabSpec>, existing: seq<string>, labs: seq<Lab>, cs: seq<Computer>)
    requires forall j :: 0 <= j < |data| ==> data[j].name !in existing
    ensures Populate(data, existing, labs, cs) == (labs + SeededLabs(data, |labs|), cs + SeededComputers(data, |labs|, |cs|))
  {
    if data == [] {
      assert labs + [] == labs && cs + [] == cs;
    } else {
      var lab := Lab(|labs| + 1, data[0].name);
      var block := Block(|labs| + 1, |cs|, data[0].count);
      assert data[0].name !in existing;
      assert forall j :: 0 <= j < |data[1..]| ==> data[1..][j] == data[j + 1];
      PopulateAppends(data[1..], existing, labs + [lab], cs + block);
      ConcatAssoc(labs, [lab], SeededLabs(data[1..], |labs| + 1));
      ConcatAssoc(cs, block, SeededComputers(data[1..], |labs| + 1, |cs| + data[0].count));
    }
  }

  lemma ConcatAssoc<T>(a: seq<T>, b: seq<T>, c: seq<T>)
    ensures (a + b) + c == a + (b + c)
  {
  }

  /** Seeding creates one lab per listed entry, in order, keyed 1, 2, ...,
      appends the listed number of computers and leaves the rest alone. */
  lemma SeedTables(st: State, data: seq<LabSpec>)
    ensures Seed(st, data).labs == SeededLabs(data, 0)
    ensures Seed(st, data).computers == st.computers + SeededComputers(data, 0, |st.computers|)
    ensures Seed(st, data).bookings == st.bookings && Seed(st, data).clock == st.clock
  {
    PopulateAppends(data, [], [], st.computers);
  }

  /** Each lab name appears at most once after seeding, exactly when the list
      names every lab once. */
  lemma SeedNamesOnce(st: State, data: seq<LabSpec>)
    requires NamesDistinct(data)
    ensures LabNamesUnique(Seed(st, data).labs)
    ensures |Seed(st, data).labs| == |data|
    ensures forall j :: 0 <= j < |data| ==> Seed(st, data).labs[j] == Lab(j + 1, data[j].name)
  {
    SeedTables(st, data);
  }

  /** Seeding keeps the invariant: the new computers are free and no active
      booking references them. */
  lemma SeedPreservesInv(st: State, data: seq<LabSpec>)
    requires Inv(st)
    requires NamesDistinct(data)
    ensures Inv(Seed(st, data))
  {
    SeedTables(st, data);
    var st' := Seed(st, data);
    var added := SeededComputers(data, 0, |st.computers|);
    assert forall i :: 0 <= i < |st.computers| ==> st'.computers[i] == st.computers[i];
    forall i | |st.computers| <= i < |st'.computers|
      ensures st'.computers[i].id == i + 1 && !st'.computers[i].isBooked
      ensures !Occupied(st.bookings, st'.computers[i].id)
    {
      assert st'.computers[i] == added[i - |st.computers|];
      SeededComputersShape(data, 0, |st.computers|, i - |st.computers|);
    }
  }

  /** Seeding a database without computers keys the first lab's computers
      1, 2, ... and creates as many computers as the list asks for. */
  lemma SeedFromEmpty(st: State, data: seq<LabSpec>)
    requires st.computers == [] && 0 < |data|
    ensures |Seed(st, data).computers| == Total(data)
    ensures Seed(st, data).computers[..data[0].count] == Block(1, 0, data[0].count)
  {
    SeedTables(st, data);
    var head := Block(1, 0, data[0].count);
    var cs := Seed(st, data).computers;
    assert cs == head + SeededComputers(data[1..], 1, data[0].count);
    assert cs[..|head|] == head;
  }

  /** A table whose computers all belong to the lab and are free is its own
      availability list. */
  lemma {:induction false} AvailableAll(cs: seq<Computer>, labId: int)
    requires forall k :: 0 <= k < |cs| ==> cs[k].labId == labId && !cs[k].isBooked
    ensures AvailableComputers(cs, labId) == cs
  {
    if cs != [] {
      AvailableAll(cs[1..], labId);
    }
  }

  /** A table holding no computer of the lab offers none of it. */
  lemma {:induction false} AvailableNone(cs: seq<Computer>, labId: int)
    requires forall k :: 0 <= k < |cs| ==> cs[k].labId != labId
    ensures AvailableComputers(cs, labId) == []
  {
    if cs != [] {
      AvailableNone(cs[1..], labId);
    }
  }

  /** The first seeded lab is offered exactly its own block of computers. */
  lemma SeededFirstLabAvailable(data: seq<LabSpec>, labBase: nat, base: nat)
    requires 0 < |data|
    ensures AvailableComputers(SeededComputers(data, labBase, base), labBase + 1)
         == Block(labBase + 1, base, data[0].count)
  {
    var labId := labBase + 1;
    var head := Block(labBase + 1, base, data[0].count);
    var rest := SeededComputers(data[1..], labBase + 1, base + data[0].count);
    AvailableConcat(head, rest, labId);
    AvailableAll(head, labId);
    forall k | 0 <= k < |rest| ensures rest[k].labId != labId {
      SeededComputersShape(data[1..], labBase + 1, base + data[0].count, k);
    }
    AvailableNone(rest, labId);
    assert head + [] == head;
  }

  /** The fresh computers of the seeded lab at position `j` are free and
      exactly as many as its entry asks for. */
  lemma {:induction false} SeededLabAvailable(data: seq<LabSpec>, labBase: nat, base: nat, j: nat)
    requires j < |data|
    ensures AvailableComputers(SeededComputers(data, labBase, base), labBase + j + 1)
         == Block(labBase + j + 1, base + Total(data[..j]), data[j].count)
  {
    if j == 0 {
      SeededFirstLabAvailable(data, labBase, base);
      assert data[..0] == [];
    } else {
      var labId := labBase + j + 1;
      var head := Block(labBase + 1, base, data[0].count);
      var rest := SeededComputers(data[1..], labBase + 1, base + data[0].count);
      assert SeededComputers(data, labBase, base) == head + rest;
      AvailableConcat(head, rest, labId);
      AvailableNone(head, labId);
      assert [] + AvailableComputers(rest, labId) == AvailableComputers(rest, labId);
      SeededLabAvailable(data[1..], labBase + 1, base + data[0].count, j - 1);
      assert data[1..][j - 1] == data[j];
      assert data[..j][1..] == data[1..][..j - 1];
      assert Total(data[..j]) == data[0].count + Total(data[1..][..j - 1]);
    }
  }

  /** The start-up list names every lab once. */
  lemma DefaultNamesDistinct()
    ensures NamesDistinct(DEFAULT_LABS)
  {
  }

  /** The start-up seeding of an empty database yields a state meeting the
      invariant, with five labs and no booking yet. */
  lemma DefaultSeedingValid()
    ensures var st := Seed(EMPTY, DEFAULT_LABS);
      Inv(st) && |st.labs| == 5 && st.bookings == []
  {
    DefaultNamesDistinct();
    SeedPreservesInv(EMPTY, DEFAULT_LABS);
    SeedTables(EMPTY, DEFAULT_LABS);
  }

  /** Seeding gives the lab of entry `j` the key j + 1, the entry's name and
      exactly the entry's number of new computers, all of them free. */
  lemma SeedGivesEachLabItsComputers(st: State, data: seq<LabSpec>, j: nat)
    requires j < |data|
    ensures var st' := Seed(st, data);
      && |st'.labs| == |data| && st'.labs[j] == Lab(j + 1, data[j].name)
      && |st.computers| <= |st'.computers|
      && AvailableComputers(st'.computers[|st.computers|..], j + 1)
         == Block(j + 1, |st.computers| + Total(data[..j]), data[j].count)
      && |AvailableComputers(st'.computers[|st.computers|..], j + 1)| == data[j].count
  {
    SeedTables(st, data);
    var added := SeededComputers(data, 0, |st.computers|);
    assert Seed(st, data).computers[|st.computers|..] == added;
    SeededLabAvailable(data, 0, |st.computers|, j);
  }

  /** After the start-up seeding of an empty database the first lab is
      "Lab 120" and offers 20 free computers. */
  lemma DefaultSeedingFirstLab()
    ensures var st := Seed(EMPTY, DEFAULT_LABS);
      |st.labs| == 5 && st.labs[0] == Lab(1, "Lab 120") && |AvailableComputers(st.computers, 1)| == 20
  {
    SeedGivesEachLabItsComputers(EMPTY, DEFAULT_LABS, 0);
    var cs := Seed(EMPTY, DEFAULT_LABS).computers;
    assert cs[0..] == cs;
  }

  /** The lab rows are deleted but their computers are not, and the new labs
      get the keys 1, 2, ... again, so seeding a second time hands lab 1 a
      second set of computers: "Lab 120" then offers 40 free computers. */
  lemma SeedingTwiceDoublesFirstLab()
    ensures var st := Seed(Seed(EMPTY, DEFAULT_LABS), DEFAULT_LABS);
      st.labs[0] == Lab(1, "Lab 120") && |AvailableComputers(st.computers, 1)| == 40
  {
    var once := Seed(EMPTY, DEFAULT_LABS);
    DefaultSeedingFirstLab();
    SeedGivesEachLabItsComputers(once, DEFAULT_LABS, 0);
    SeedTables(once, DEFAULT_LABS);
    var cs := Seed(once, DEFAULT_LABS).computers;
    assert cs == once.computers + cs[|once.computers|..];
    AvailableConcat(once.computers, cs[|once.computers|..], 1);
  }
}
