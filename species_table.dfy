/** The species table the page keeps between reruns: one dictionary from
    species to count and one from species to group, edited together. */
module SpeciesTable {

  /** One row of an uploaded file: its Group, Specie and Count columns. */
  datatype Row = Row(group: string, specie: string, count: real)

  /** The Count column indexed by Specie, as a dictionary: rows are taken in
      order and a later row with the same species replaces an earlier one. */
  function CountColumn(rows: seq<Row>): map<string, real>
  {
    if rows == [] then map[]
    else
      var last := rows[|rows| - 1];
      CountColumn(rows[..|rows| - 1])[last.specie := last.count]
  }

  /** The Group column indexed by Specie, built the same way. */
  function GroupColumn(rows: seq<Row>): map<string, string>
  {
    if rows == [] then map[]
    else
      var last := rows[|rows| - 1];
      GroupColumn(rows[..|rows| - 1])[last.specie := last.group]
  }

  /** Both columns are keyed by exactly the species that occur in the rows. */
  lemma {:induction false} ColumnsShareKeys(rows: seq<Row>)
    ensures CountColumn(rows).Keys == GroupColumn(rows).Keys
    ensures forall s :: s in CountColumn(rows) <==> exists i :: 0 <= i < |rows| && rows[i].specie == s
  {
    if rows != [] {
      var init := rows[..|rows| - 1];
      ColumnsShareKeys(init);
      forall s | s in CountColumn(rows)
        ensures exists i :: 0 <= i < |rows| && rows[i].specie == s
      {
        if s != rows[|rows| - 1].specie {
          var j :| 0 <= j < |init| && init[j].specie == s;
          assert rows[j].specie == s;
        }
      }
      forall s | exists i :: 0 <= i < |rows| && rows[i].specie == s
        ensures s in CountColumn(rows)
      {
        var i :| 0 <= i < |rows| && rows[i].specie == s;
        if i < |rows| - 1 {
          assert init[i].specie == s;
        }
      }
    }
  }

  /** The entry of a species comes from the last row naming it. */
  lemma {:induction false} LastRowWins(rows: seq<Row>, s: string)
    requires s in CountColumn(rows)
    ensures s in GroupColumn(rows)
    ensures exists i :: (0 <= i < |rows| && rows[i].specie == s &&
                         CountColumn(rows)[s] == rows[i].count && GroupColumn(rows)[s] == rows[i].group &&
                         (forall j :: i < j < |rows| ==> rows[j].specie != s))
  {
    ColumnsShareKeys(rows);
    var n := |rows| - 1;
    var init := rows[..n];
    if rows[n].specie == s {
      assert rows[n].specie == s && CountColumn(rows)[s] == rows[n].count && GroupColumn(rows)[s] == rows[n].group;
    } else {
      LastRowWins(init, s);
      var i :| 0 <= i < |init| && init[i].specie == s &&
        CountColumn(init)[s] == init[i].count && GroupColumn(init)[s] == init[i].group &&
        (forall j :: i < j < |init| ==> init[j].specie != s);
      assert rows[i] == init[i];
      assert forall j :: i < j < |rows| ==> rows[j].specie != s by {
        forall j | i < j < |rows| ensures rows[j].specie != s {
          if j < n {
            assert rows[j] == init[j];
          }
        }
      }
    }
  }

  class Table {
    /** Species to count (fish_species). */
    var fishSpecies: map<string, real>
    /** Species to group label (species_groups). */
    var speciesGroups: map<string, string>

    /** Every species with a count has a group and the other way round. */
    ghost predicate Valid()
      reads this
    {
      fishSpecies.Keys == speciesGroups.Keys
    }

    /** The empty tables of a new session. */
    constructor ()
      ensures Valid()
      ensures fishSpecies == map[] && speciesGroups == map[]
    {
      fishSpecies := map[];
      speciesGroups := map[];
    }

    /** An uploaded file replaces both tables with its two columns. */
    method Upload(rows: seq<Row>)
      modifies this
      ensures Valid()
      ensures fishSpecies == CountColumn(rows)
      ensures speciesGroups == GroupColumn(rows)
    {
      ColumnsShareKeys(rows);
      fishSpecies := CountColumn(rows);
      speciesGroups := GroupColumn(rows);
    }

    /** "Add Species": a non-empty name is entered in both tables, replacing
      any entry it had; an empty name changes nothing. */
    method AddSpecies(species: string, group: string, count: real)
      requires Valid()
      modifies this
      ensures Valid()
      ensures species == "" ==> fishSpecies == old(fishSpecies) && speciesGroups == old(speciesGroups)
      ensures species != "" ==> fishSpecies == old(fishSpecies)[species := count]
      ensures species != "" ==> speciesGroups == old(speciesGroups)[species := group]
    {
      if species != "" {
        fishSpecies := fishSpecies[species := count];
        speciesGroups := speciesGroups[species := group];
      }
    }

    /** A count edited in the list: only that species' count changes. The
        list only shows species of the table. */
    method UpdateCount(sp: string, count: real)
      requires Valid()
      requires sp in fishSpecies
      modifies this
      ensures Valid()
      ensures fishSpecies == old(fishSpecies)[sp := count]
      ensures speciesGroups == old(speciesGroups)
    {
      fishSpecies := fishSpecies[sp := count];
    }

    /** "Remove": the species leaves both tables; `del` needs it present in
        each. */
    method Remove(sp: string)
      requires Valid()
      requires sp in fishSpecies
      modifies this
      ensures Valid()
      ensures fishSpecies == old(fishSpecies) - {sp}
      ensures speciesGroups == old(speciesGroups) - {sp}
    {
      fishSpecies := fishSpecies - {sp};
      speciesGroups := speciesGroups - {sp};
    }

    /** The species list under a group filter: with groups selected, the
        entries whose group is among them, looked up in the group table for
        every species of the count table; with none, the whole table. */
    function Filtered(groupFilter: seq<string>): (r: map<string, real>)
      reads this
      requires Valid()
      ensures groupFilter == [] ==> r == fishSpecies
      ensures groupFilter != [] ==>
        forall s :: s in r <==> s in fishSpecies && speciesGroups[s] in groupFilter
      ensures forall s :: s in r ==> s in fishSpecies && r[s] == fishSpecies[s]
    {
      if groupFilter != [] then
        map s | s in fishSpecies && speciesGroups[s] in groupFilter :: fishSpecies[s]
      else
        fishSpecies
    }
  }
}
