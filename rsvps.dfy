/**
 The `rsvps` slash command: it reads the rows of the RSVP spreadsheet
 export, skips the header row, splits everyone into seniors and
 non-seniors by the seniority column, and renders an embed with a total,
 a count per group and each group's sorted, bulleted names.
 */
module Rsvp {
  import opened PyStrings
  import opened Lexicographic
  import opened Selection

  /** Fixed column positions of the registration sheet. */
  const FirstNameCol: nat := 2
  const LastNameCol: nat := 3
  // Columns 4 and 5 (the food-allergy flag and list) are declared in the source but never read.
  const SeniorCol: nat := 6

  /** One row as split by the CSV reader. */
  type Row = seq<string>

  /** A row with every column the roster indexes (the seniority column is the last of them). */
  type DataRow = r: Row | |r| > SeniorCol witness ["", "", "", "", "", "", ""]

  /** Every row but the header can be indexed; the header itself may be any row. */
  predicate WellFormed(rows: seq<Row>)
  {
    forall i :: 1 <= i < |rows| ==> |rows[i]| > SeniorCol
  }

  /** The rows after the header; an export without rows has none. */
  function DataRows(rows: seq<Row>): seq<DataRow>
    requires WellFormed(rows)
  {
    if rows == [] then [] else rows[1..]
  }

  /** `"senior" in row[IS_SENIOR_COL]`: a case-sensitive substring test. */
  predicate IsSenior(row: DataRow)
  {
    Contains("senior", row[SeniorCol])
  }

  predicate IsNonSenior(row: DataRow)
  {
    !IsSenior(row)
  }

  /** The name shown for a row: first and last name, each capitalized, with one space between. */
  function DisplayName(row: DataRow): string
  {
    Capitalize(row[FirstNameCol]) + " " + Capitalize(row[LastNameCol])
  }

  /** The display names of the rows whose seniority is `senior`, in row order. */
  function Group(d: seq<DataRow>, senior: bool): seq<string>
  {
    if senior then Select(d, IsSenior, DisplayName) else Select(d, IsNonSenior, DisplayName)
  }

  /** Each group keeps the row order: grouping commutes with concatenation. */
  lemma GroupAppend(a: seq<DataRow>, b: seq<DataRow>, senior: bool)
    ensures Group(a + b, senior) == Group(a, senior) + Group(b, senior)
  {
    SelectAppend(a, b, IsSenior, DisplayName);
    SelectAppend(a, b, IsNonSenior, DisplayName);
  }

  /**
   The data row at index `i` adds exactly its own display name, at its own
   place, to the group its seniority selects, and nothing to the other.
   */
  lemma RowContribution(d: seq<DataRow>, i: nat, senior: bool)
    requires i < |d|
    ensures Group(d, senior) ==
      Group(d[..i], senior) + (if IsSenior(d[i]) == senior then [DisplayName(d[i])] else []) + Group(d[i + 1..], senior)
  {
    SelectAt(d, i, IsSenior, DisplayName);
    SelectAt(d, i, IsNonSenior, DisplayName);
  }

  /**
   Every data row lands in exactly one group: together the groups hold all
   display names, each as often as it occurs, and their sizes add up to
   the number of data rows.
   */
  lemma GroupsPartitionNames(d: seq<DataRow>)
    ensures multiset(Group(d, true)) + multiset(Group(d, false)) == multiset(MapAll(d, DisplayName))
    ensures |Group(d, true)| + |Group(d, false)| == |d|
  {
    SelectComplement(d, IsSenior, IsNonSenior, DisplayName);
  }

  /** Appending the group of the next data row. */
  lemma GroupTake(d: seq<DataRow>, n: nat)
    requires n < |d|
    ensures Group(d[..n + 1], true) == Group(d[..n], true) + (if IsSenior(d[n]) then [DisplayName(d[n])] else [])
    ensures Group(d[..n + 1], false) == Group(d[..n], false) + (if IsSenior(d[n]) then [] else [DisplayName(d[n])])
  {
    SelectTake(d, n, IsSenior, DisplayName);
    SelectTake(d, n, IsNonSenior, DisplayName);
  }

  /**
   The loop of `rsvps`: the first row only clears the `is_first` flag;
   every later row appends its display name to `seniors` or `nonseniors`.
   */
  method Partition(rows: seq<Row>) returns (seniors: seq<string>, nonseniors: seq<string>)
    requires WellFormed(rows)
    ensures seniors == Group(DataRows(rows), true)
    ensures nonseniors == Group(DataRows(rows), false)
    ensures |seniors| + |nonseniors| == |DataRows(rows)|
  {
    ghost var d := DataRows(rows);
    seniors, nonseniors := [], [];
    var isFirst := true;
    for i := 0 to |rows|
      invariant isFirst <==> i == 0
      invariant i == 0 ==> seniors == [] && nonseniors == []
      invariant i > 0 ==> seniors == Group(d[..i - 1], true) && nonseniors == Group(d[..i - 1], false)
    {
      if isFirst {
        isFirst := false;
        assert d[..0] == [];
      } else {
        var row: DataRow := rows[i];
        assert d[i - 1] == row;
        GroupTake(d, i - 1);
        if IsSenior(row) {
          seniors := seniors + [DisplayName(row)];
        } else {
          nonseniors := nonseniors + [DisplayName(row)];
        }
      }
    }
    assert rows != [] ==> d[..|rows| - 1] == d;
    GroupsPartitionNames(d);
  }

  /** One field of the embed. */
  datatype Field = Field(name: string, value: string)

  /** The embed the command sends (colour and layout flags are not modelled). */
  datatype Embed = Embed(title: string, fields: seq<Field>)

  function Title(total: nat): string
  {
    "RSVPs - " + NatToString(total) + " total"
  }

  function SeniorsHeading(count: nat): string
  {
    "[" + NatToString(count) + "] Seniors"
  }

  function NonSeniorsHeading(count: nat): string
  {
    "[" + NatToString(count) + "] Non-Seniors"
  }

  /** `f"• {x}"`. */
  function Bullet(name: string): string
  {
    "\U{2022} " + name
  }

  function Bullets(names: seq<string>): (r: seq<string>)
    ensures |r| == |names|
    ensures forall i :: 0 <= i < |names| ==> r[i] == Bullet(names[i])
  {
    if names == [] then [] else [Bullet(names[0])] + Bullets(names[1..])
  }

  /** `"\n".join(f"• {x}" for x in sorted(names))`. */
  function FieldValue(names: seq<string>): string
  {
    Join("\n", Bullets(SortStrings(names)))
  }

  /**
   The `rsvps` command from the fetched rows on: partition, then an embed
   whose title carries the total and whose two fields carry each group's
   count and rendered names.
   */
  method Rsvps(rows: seq<Row>) returns (embed: Embed)
    requires WellFormed(rows)
    ensures embed.title == Title(|DataRows(rows)|)
    ensures |embed.fields| == 2
    ensures embed.fields[0].name == SeniorsHeading(|Group(DataRows(rows), true)|)
    ensures embed.fields[0].value == FieldValue(Group(DataRows(rows), true))
    ensures embed.fields[1].name == NonSeniorsHeading(|Group(DataRows(rows), false)|)
    ensures embed.fields[1].value == FieldValue(Group(DataRows(rows), false))
  {
    var seniors, nonseniors := Partition(rows);
    var title := Title(|seniors| + |nonseniors|);
    var seniorsField := Field(SeniorsHeading(|seniors|), FieldValue(seniors));
    var nonseniorsField := Field(NonSeniorsHeading(|nonseniors|), FieldValue(nonseniors));
    embed := Embed(title, [seniorsField, nonseniorsField]);
  }

  lemma BulletsKeepOrder(names: seq<string>)
    requires Sorted(names)
    ensures Sorted(Bullets(names))
  {
    forall i, j | 0 <= i < j < |names| ensures Le(Bullet(names[i]), Bullet(names[j])) {
      LeCommonPrefix("\U{2022} ", names[i], names[j]);
    }
  }

  /**
   No group member contains a line break. This always holds of the groups
   the command builds: the export is cut with `splitlines()` before the CSV
   reader sees it, so no field holds a `'\n'`, and capitalizing adds none.
   */
  predicate SingleLine(names: seq<string>)
  {
    forall i :: 0 <= i < |names| ==> '\n' !in names[i]
  }

  /**
   A rendered field: an empty group renders as the empty string; otherwise
   its lines are the bulleted names of the sorted group (a permutation of
   the group, see SortStrings), one per line, in non-decreasing order.
   */
  lemma RenderedLines(names: seq<string>)
    ensures names == [] ==> FieldValue(names) == ""
    ensures names != [] && SingleLine(names) ==>
      var lines := Split(FieldValue(names), '\n');
      && lines == Bullets(SortStrings(names))
      && |lines| == |names|
      && Sorted(lines)
  {
    var sorted := SortStrings(names);
    if names != [] && SingleLine(names) {
      var bs := Bullets(sorted);
      assert |sorted| == |names| by { assert |multiset(sorted)| == |multiset(names)|; }
      forall k | 0 <= k < |bs| ensures '\n' !in bs[k] {
        assert sorted[k] in multiset(names);
        assert bs[k] == ['\U{2022}', ' '] + sorted[k];
      }
      SplitJoin(bs, '\n');
      BulletsKeepOrder(sorted);
    }
  }

  /**
   The rendered field does not depend on the order of the data rows: any
   rearrangement of the same rows renders each group identically.
   */
  lemma RowOrderIrrelevant(a: seq<DataRow>, b: seq<DataRow>, senior: bool)
    requires multiset(a) == multiset(b)
    ensures FieldValue(Group(a, senior)) == FieldValue(Group(b, senior))
  {
    SelectPermutes(a, b, IsSenior, DisplayName);
    SelectPermutes(a, b, IsNonSenior, DisplayName);
    SortIgnoresOrder(Group(a, senior), Group(b, senior));
  }

  /** Two rows whose names differ only in case get the same display name (and both are listed). */
  lemma DisplayNameIgnoresCase(r1: DataRow, r2: DataRow)
    requires Lower(r1[FirstNameCol]) == Lower(r2[FirstNameCol])
    requires Lower(r1[LastNameCol]) == Lower(r2[LastNameCol])
    ensures DisplayName(r1) == DisplayName(r2)
  {
    CapitalizeIgnoresCase(r1[FirstNameCol], r2[FirstNameCol]);
    CapitalizeIgnoresCase(r1[LastNameCol], r2[LastNameCol]);
  }

  /** A row is a senior exactly when `"senior"` occurs somewhere in its seniority field. */
  lemma SeniorTestMatchesSubstring(row: DataRow)
    ensures IsSenior(row) <==> exists i: nat :: i <= |row[SeniorCol]| && OccursAt("senior", row[SeniorCol], i)
  {
    ContainsMeaning("senior", row[SeniorCol]);
  }

  /** The seniority test matches in the middle of the field, ... */
  lemma ExampleSeniorMidField()
    ensures Contains("senior", "high school senior (2025)")
  {
    assert OccursAt("senior", "high school senior (2025)", 12);
    ContainsMeaning("senior", "high school senior (2025)");
  }

  /** ... but only in lower case: a capitalized "Senior" does not count. */
  lemma SeniorTestIsCaseSensitive()
    ensures !Contains("senior", "Senior in HS")
  {
    assert 's' !in "Senior in HS";
    FirstCharAbsentNeverContains("senior", "Senior in HS");
  }

  /** Capitalizing the names of the snapshot below. */
  lemma ExampleCapitalized()
    ensures Capitalize("jane") == "Jane" && Capitalize("doe") == "Doe"
    ensures Capitalize("bOB") == "Bob" && Capitalize("LEE") == "Lee"
  {
  }

  /** Any header and two registrations: one senior, one not. */
  lemma ExampleSnapshot(header: Row)
    ensures var rows := [
        header,
        ["", "", "jane", "doe", "", "", "senior"],
        ["", "", "bOB", "LEE", "", "", ""]];
      && WellFormed(rows)
      && Group(DataRows(rows), true) == ["Jane Doe"]
      && Group(DataRows(rows), false) == ["Bob Lee"]
  {
    var jane: DataRow := ["", "", "jane", "doe", "", "", "senior"];
    var bob: DataRow := ["", "", "bOB", "LEE", "", "", ""];
    assert IsSenior(jane) by { assert IsPrefix("senior", "senior"); }
    assert !IsSenior(bob) by { TooShortNeverContains("senior", ""); }
    ExampleCapitalized();
    assert DisplayName(jane) == "Jane Doe";
    assert DisplayName(bob) == "Bob Lee";
    assert [header, jane, bob][1..] == [jane, bob];
    assert [jane, bob][1..] == [bob] && [bob][1..] == [];
    assert Group([bob], true) == [] + Group([], true);
    assert Group([jane, bob], true) == [DisplayName(jane)] + Group([bob], true);
    assert Group([bob], false) == [DisplayName(bob)] + Group([], false);
    assert Group([jane, bob], false) == Group([bob], false);
  }

  /** The title and headings of the embed for that snapshot: two registrations, one per group. */
  lemma ExampleHeadings(header: Row)
    ensures var rows := [
        header,
        ["", "", "jane", "doe", "", "", "senior"],
        ["", "", "bOB", "LEE", "", "", ""]];
      && WellFormed(rows)
      && Title(|DataRows(rows)|) == "RSVPs - 2 total"
      && SeniorsHeading(|Group(DataRows(rows), true)|) == "[1] Seniors"
      && NonSeniorsHeading(|Group(DataRows(rows), false)|) == "[1] Non-Seniors"
  {
    ExampleSnapshot(header);
    var rows := [
        header,
        ["", "", "jane", "doe", "", "", "senior"],
        ["", "", "bOB", "LEE", "", "", ""]];
    assert |DataRows(rows)| == 2;
    assert Title(2) == "RSVPs - 2 total";
    assert SeniorsHeading(1) == "[1] Seniors";
    assert NonSeniorsHeading(1) == "[1] Non-Seniors";
  }

  /** Sorting two names by the string order. */
  lemma ExampleSortedNames()
    ensures SortStrings(["Lee Bob", "Bob Lee"]) == ["Bob Lee", "Lee Bob"]
  {
    var names := ["Lee Bob", "Bob Lee"];
    var sorted := ["Bob Lee", "Lee Bob"];
    assert Le("Bob Lee", "Lee Bob");
    assert multiset(sorted) == multiset(names);
    SortedUnique(SortStrings(names), sorted);
  }

  /** A group of one renders as one bulleted line; an empty group renders as nothing. */
  lemma ExampleFieldValueSingle()
    ensures FieldValue(["Jane Doe"]) == "\U{2022} Jane Doe"
    ensures FieldValue([]) == ""
  {
    assert SortStrings(["Jane Doe"]) == ["Jane Doe"];
  }
}
