# RSVP roster of the appreciation bot, in Dafny

The bot answers the `/rsvps` slash command. It reads the RSVP spreadsheet
export and sends a Discord embed. The embed lists everyone who has RSVP'd,
split into seniors and non-seniors. This project models that command from
the point where the export has been split into rows.

- The first row is the header and is skipped.
- Every later row is a senior when the case-sensitive substring `"senior"`
  occurs in column 6. Otherwise it is a non-senior.
- Each row contributes one display name: the capitalized first name
  (column 2), a space, and the capitalized last name (column 3).
- The embed title is `RSVPs - <total> total`.
- There are two fields, `[<n>] Seniors` and `[<n>] Non-Seniors`. Each field's
  value is its group's names, sorted, each prefixed with `• `, joined by
  line breaks.

Files and modules:

- `strings.dfy`, module `PyStrings`: the Python string operations the command uses.
  These are `str.capitalize`, the substring test `in`, `str.join` and the decimal
  rendering of a count inside an f-string. It also has `str.split`, which is used
  only to state what `join` produced.
- `ordering.dfy`, module `Lexicographic`: Python's order on strings (code point by
  code point, a proper prefix first) and `sorted()`.
- `selection.dfy`, module `Selection`: the shape of the loop body, "append `f(x)`
  for every `x` a test keeps", and its facts for any test and any `f`.
- `rsvps.dfy`, module `Rsvp`: the column constants, the row predicates, the specification
  function `Group`, the loop that partitions the rows (`Partition`), and the
  command itself (`Rsvps`), which returns an `Embed` value.

`Partition` is a method with the source's `is_first` flag and two growing
sequences. It is proved equal to the specification function `Group` applied
to the data rows. The lemmas about `Group` state the partition.

How main.py behaves at the edges:

- The seniority test is case-sensitive: `Senior in HS` does not make a senior (`Rsvp.SeniorTestIsCaseSensitive`).
- A data row with fewer than seven fields raises `IndexError`; there are no empty defaults.
- Names are capitalized but not trimmed.

## Model

| member | source | states |
|---|---|---|
| `PyStrings.Capitalize` | main.py:133-137 | `str.capitalize` as the upper-cased first character followed by the lower-cased rest; its meaning is stated by `CapitalizeMeaning` |
| `PyStrings.CapitalizeMeaning` | main.py:133-137 | `capitalize` keeps the length; it upper-cases the first character and lower-cases every other one, so no lower-case letter is left in front and no upper-case letter after it |
| `PyStrings.CapitalizeIdempotent` | main.py:133 | capitalizing an already capitalized name changes nothing |
| `PyStrings.CapitalizeIgnoresCase` | main.py:133 | two strings equal up to case capitalize to the same string |
| `PyStrings.Contains` | main.py:131 | `p in s` as a scan of `s` from the left for `p` as a prefix; see `ContainsMeaning` for the index characterisation |
| `PyStrings.ContainsMeaning` | main.py:131 | `p in s` holds iff `p` occurs as a contiguous block of `s` at some index (any position, not only an exact match) |
| `PyStrings.NatToString` | main.py:141 | a count renders as a non-empty string of decimal digits without a leading zero |
| `PyStrings.NatToStringRoundTrip` | main.py:141-152 | reading the rendered digits back gives the count itself |
| `PyStrings.NatToStringInjective` | main.py:146-152 | different counts render differently |
| `PyStrings.Join` | main.py:147-153 | `sep.join(xs)`: nothing for no pieces, the piece itself for one, pieces separated by `sep` otherwise; `SplitJoin` shows the pieces are recovered |
| `PyStrings.SplitJoin` | main.py:147 | splitting `"\n".join(xs)` at line breaks gives back `xs` when no piece holds a line break |
| `Lexicographic.Le` | main.py:147 | the `<=` that `sorted` uses on strings, compared character by character; see `LeMeaning`, `LeTotal`, `LeTransitive`, `LeAntisymmetric` |
| `Lexicographic.LeMeaning` | main.py:147 | the string order used by `sorted` is: `a` is a prefix of `b`, or `a` has the smaller code point at the first differing index |
| `Lexicographic.LeTotal` | main.py:147 | any two strings are comparable |
| `Lexicographic.LeTransitive` | main.py:147 | the string order is transitive |
| `Lexicographic.LeCommonPrefix` | main.py:147 | a common prefix does not change the order of two strings |
| `Lexicographic.LeAntisymmetric` | main.py:147 | strings that are each `<=` the other are equal |
| `Lexicographic.InsertKeepsSorted` | main.py:147 | inserting one string into a sorted list keeps it sorted |
| `Lexicographic.InsertPermutes` | main.py:147 | inserting adds exactly that string and loses nothing |
| `Lexicographic.InsertStep` | main.py:147 | inserting the head of a list into a sorted arrangement of its tail gives a sorted arrangement of the whole list |
| `Lexicographic.SortStrings` | main.py:147-153 | `sorted(names)` is in non-decreasing order and is a permutation of `names`: nothing dropped, nothing deduplicated |
| `Lexicographic.SortedUnique` | main.py:147-153 | two sorted permutations of the same strings are equal, so the model's sort agrees with Python's |
| `Lexicographic.SortIgnoresOrder` | main.py:147-153 | sorting the same names given in any order gives the same list |
| `Selection.Select` | main.py:126-138 | the list a loop builds by appending `f(x)` for every `x` the test keeps, in input order; see the lemmas below |
| `Selection.MapAll` | main.py:133-138 | the list of every element's image has one entry per element, at the same index |
| `Selection.SelectAppend` | main.py:126-138 | selecting from a concatenation concatenates the selections, so appending keeps the input order |
| `Selection.SelectSnoc` | main.py:136-138 | one more element adds its image at the end exactly when it is kept |
| `Selection.SelectTake` | main.py:126-138 | the selection from a prefix one element longer adds that element's image exactly when it is kept |
| `Selection.SelectAt` | main.py:126-138 | the element at index `i` contributes its image, at its own place, exactly when it is kept |
| `Selection.SelectAround` | main.py:126-138 | one element between two stretches contributes its image between their selections, exactly when it is kept |
| `Selection.SelectRemove` | main.py:126-138 | taking out the element at index `i` takes its image, when kept, out of the selection and nothing else |
| `Selection.RemovePermutes` | main.py:126-138 | removing one matching element from each of two rearrangements of each other leaves rearrangements of each other |
| `Selection.SelectPermutes` | main.py:126-138 | rearranging the input rearranges the selection: the same images, each as often |
| `Selection.SelectComplement` | main.py:131-138 | a test and its negation split the images between them, each exactly once, and their sizes add up to the input size |
| `Rsvp.DataRows` | main.py:125-129 | the rows after the header that the `is_first` flag skips; no rows for an empty export |
| `Rsvp.IsSenior` | main.py:131 | `"senior" in row[IS_SENIOR_COL]`, the case-sensitive substring test; see `SeniorTestMatchesSubstring`, `SeniorTestIsCaseSensitive` |
| `Rsvp.DisplayName` | main.py:133-137 | capitalized first name, one space, capitalized last name; see `DisplayNameIgnoresCase` |
| `Rsvp.Group` | main.py:124-138 | the specification of each list the loop builds: the display names of the data rows of that seniority, in row order; see `Partition`, `RowContribution`, `GroupsPartitionNames` |
| `Rsvp.Partition` | main.py:124-138 | the loop skips exactly the first row; `seniors` and `nonseniors` are the display names of the senior and non-senior data rows in row order; their sizes add up to the number of data rows (zero for no rows) |
| `Rsvp.GroupAppend` | main.py:126-138 | grouping rows then concatenating equals concatenating then grouping, so each group keeps the rows' order (it is built only by `append`) |
| `Rsvp.RowContribution` | main.py:131-138 | the data row at index `i` adds exactly its own display name, at its own place, to the group its seniority selects, and nothing to the other |
| `Rsvp.GroupsPartitionNames` | main.py:131-141 | together the two groups hold every row's display name, each exactly once, so the two counts add up to the number of data rows |
| `Rsvp.GroupTake` | main.py:126-138 | one more loop iteration appends the next data row's display name to the group its seniority selects and leaves the other group as it was |
| `Rsvp.Title` | main.py:141 | `RSVPs - <total> total`, the total rendered in decimal; see `NatToStringRoundTrip` |
| `Rsvp.SeniorsHeading` | main.py:146 | `[<count>] Seniors` |
| `Rsvp.NonSeniorsHeading` | main.py:152 | `[<count>] Non-Seniors` |
| `Rsvp.Bullet` | main.py:145-155 | one name prefixed with a bullet and a space |
| `Rsvp.Bullets` | main.py:145-155 | one bulleted line per name, at the name's index |
| `Rsvp.FieldValue` | main.py:145-155 | the bulleted names of the sorted group joined by line breaks; see `RenderedLines` |
| `Rsvp.Rsvps` | main.py:140-155 | the title shows the number of data rows; the first field shows the seniors' count and rendered names, the second the non-seniors' count and rendered names |
| `Rsvp.BulletsKeepOrder` | main.py:147 | prefixing `• ` keeps a sorted list sorted |
| `Rsvp.RenderedLines` | main.py:147-153 | an empty group renders as the empty string; otherwise the field's lines are the bulleted names of the sorted group, one per name, in non-decreasing order |
| `Rsvp.RowOrderIrrelevant` | main.py:124-153 | any rearrangement of the same data rows renders each group's field identically, so the output does not depend on the row order of the export |
| `Rsvp.DisplayNameIgnoresCase` | main.py:133-137 | rows whose names differ only in case get the same display name |
| `Rsvp.SeniorTestMatchesSubstring` | main.py:131 | a row is a senior exactly when `"senior"` occurs at some index of its seniority field, in both directions |
| `Rsvp.ExampleSeniorMidField` | main.py:131 | `"senior"` in the middle of `high school senior (2025)` matches |
| `Rsvp.SeniorTestIsCaseSensitive` | main.py:131 | `Senior in HS` does not make a senior |
| `Rsvp.ExampleSnapshot` | main.py:125-138 | for any header, a senior `jane doe` and a non-senior `bOB LEE`, seniors are `["Jane Doe"]` and non-seniors are `["Bob Lee"]` |
| `Rsvp.ExampleHeadings` | main.py:141-152 | for the rows of `ExampleSnapshot` (two registrations, one per group), the title is `RSVPs - 2 total` and the headings are `[1] Seniors` and `[1] Non-Seniors` |
| `Rsvp.ExampleSortedNames` | main.py:147 | `Lee Bob` sorts after `Bob Lee` |
| `Rsvp.ExampleFieldValueSingle` | main.py:147-153 | one name renders as one bullet line; no names render as the empty string |

## Left out

- HTTP retrieval of the export (`requests.get`), the status check and the UTF-8 decoding are I/O, so the model starts from rows (main.py:116-121). The non-200 branch of the source sends an error message but does not return, so the command carries on with the failed response.
- `csv.reader` is a library call and its quoting and escaping rules are not modelled. The input is the list of rows it yields.
- Short data rows are not an error path. `Rsvp.Partition` and `Rsvp.Rsvps` require every data row to have at least seven fields. In the source, a shorter row raises `IndexError` and the command sends nothing.
- Sending the embed, and its colour and `inline` flags, are not modelled. `Embed` holds only the title and the fields' names and values. Discord's documented limits on embed fields (no empty value, at most 1024 characters) are not part of main.py and are not modelled, so an empty group, which renders as the empty string (`Rsvp.RenderedLines`), or a long one may make the real send fail.
- `PyStrings.Capitalize`: only ASCII letters change case. Python also maps non-ASCII letters and title-cases the first character. Some of those mappings change the length (`"ß".capitalize()`), and this model does not cover them.
- `Lexicographic.SortStrings` is an insertion sort, not Python's Timsort. `Lexicographic.SortedUnique` shows the two give the same list.
- The bot setup, `on_ready`, `on_message`, `bot.run` and the environment variables are framework plumbing and network access (main.py:12-44, main.py:159).
- `on_raw_reaction_add` and `on_raw_reaction_remove` only run guards and return without any effect, and `fetch_message` is a network call (main.py:47-84). No role is granted or revoked.
- The commented-out `fish` command is dead code (main.py:92-112).
- The food-allergy columns (main.py:17-18) are declared as constants but nothing in main.py reads them, so the model has no constants for them.
