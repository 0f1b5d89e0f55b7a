# PEP 0 index generation: classification, author emails, author order

This project models the logic of the generator that writes PEP 0, the index
of all Python Enhancement Proposals. It covers four parts of
`pep_sphinx_extensions/pep_zero_generator/writer.py`:

- **`_classify_peps`**: the split of all PEPs into the nine lists of the
  "Index by Category": meta, informational, provisional, accepted, open,
  finished, historical, deferred and abandoned ("dead").
  - The source runs a chain of eleven filter-and-subtract steps. Each step
    sorts the PEPs still remaining that meet its condition into one list.
    It then removes that list from the remaining set.
  - The model runs the same chain (`Classification.Chain`,
    `Classification.RunSteps`).
  - It proves that the chain agrees with an independent per-PEP decision
    list, `Classification.Route`. From that it follows that the lists
    partition the input and that status and type rules take precedence in
    source order.
  - Any PEP left over makes the classification fail. The error names such
    a PEP.
- **`_verify_email_addresses`**: a fold over every author entry of every PEP.
  - It collects, per author, the set of non-empty email addresses seen.
  - It fails when some author has two or more distinct addresses.
  - Otherwise it maps every author to the single address, or to `""`.
  - Dictionary insertion order is explicit in the model (`order`), because
    `_sort_authors` sorts the dictionary's keys in that order.
- **`_author_sort_by` / `_sort_authors`**: the surname sort key and the sort
  of the author table by it.
  - The surname is the text before the first comma.
  - Leading surname words that do not start with a capital are skipped.
  - The rest is lower-cased and NFKD-normalised.
  - Character classification, lower-casing and normalisation are
    parameters (`AuthorSort.TextOps`).
- **The numerical index of `write_pep0`**: a row per PEP, with a blank line
  wherever the PEP number jumps by more than one from the previous row.
  The first row's previous number is 0.

Module layout: `Wrappers` (Option, Result), `Sequences` (distinctness,
filtering, first-occurrence deduplication), `Sorting` (a stable insertion
sort under a total preorder), `Peps` (the PEP and author records, sorting by
number), `Classification`, `Emails`, `AuthorSort`, `NumericalIndex`.

Modelling choices:

- A PEP is reduced to the fields the generator reads: number, type, status,
  title, authors. PEPs are equal when all these fields are equal. `sorted`
  orders them by number.
- `set(peps)` is modelled as the input with later duplicates dropped
  (`Sequences.Dedup`), so that every step works on a sequence.
- An author is identified by its `lastFirst` name. That name is the key of
  the email dictionary. The email is one of the author's attributes, not
  part of its identity.
- `"Release Schedule" not in pep.title` is substring search
  (`Classification.Contains`).
- Python's string `<=` is lexicographic order by code point
  (`AuthorSort.LexLe`).

## Model

| member | source | states |
|---|---|---|
| Classification.Classify | pep_sphinx_extensions/pep_zero_generator/writer.py:217-266 | Succeeds exactly when every input PEP has a route. On failure the PEP named is an input PEP with no route. On success each of the nine lists holds exactly the input PEPs routed to it. The lists are pairwise disjoint, together cover the input and hold no PEP twice. Each list is sorted by number, except `historical` and `dead`, which are a sorted run of Process PEPs followed by a sorted run of the others. |
| Classification.StatusBeforeType | pep_sphinx_extensions/pep_zero_generator/writer.py:224-228 | Status is tested before type: when classification succeeds, every Draft PEP lands in `open` and every Deferred PEP in `deferred`, whatever its type. |
| Classification.ProcessRouting | pep_sphinx_extensions/pep_zero_generator/writer.py:230-237 | When classification succeeds, a Process PEP that is not Draft or Deferred is in `meta` iff Active, in `dead` iff Withdrawn or Rejected, and in `historical` iff neither. It is never in `info`, `provisional`, `accepted` or `finished`. |
| Classification.NonProcessRouting | pep_sphinx_extensions/pep_zero_generator/writer.py:239-252 | When classification succeeds, a non-Process PEP with status Rejected, Withdrawn, Incomplete or Superseded is in `dead`. Otherwise an Informational PEP is in `info` iff it is Active or its title lacks "Release Schedule", and in `historical` iff not. |
| Classification.StatusOnlyRouting | pep_sphinx_extensions/pep_zero_generator/writer.py:254-261 | When classification succeeds, a PEP no type rule took is placed by status alone: Provisional goes to `provisional`, Accepted or Active to `accepted`, Final to `finished`. |
| Classification.UnroutedPeps | pep_sphinx_extensions/pep_zero_generator/writer.py:224-264 | A PEP has no route, and so makes the classification fail, exactly when it is neither Process nor Informational and its status is none of Draft, Deferred, Provisional, Accepted, Active, Final, Rejected, Withdrawn, Incomplete, Superseded. |
| Classification.PlacedAt | pep_sphinx_extensions/pep_zero_generator/writer.py:224-261 | When the lists are placed by route, an input PEP is in a given list exactly when its route names that list. |
| Classification.ChainFollowsRoute | pep_sphinx_extensions/pep_zero_generator/writer.py:222-261 | The first step of the source's chain that selects a PEP sends it where the decision list `Route` sends it. Draft takes precedence over everything, then Deferred, then the Process rules, then the abandoned statuses, and so on. That step is the one `CategoryRank` names for the list: Process PEPs reach `dead` and `historical` at the earlier steps, the others at the later ones. |
| Classification.RankByConditions | pep_sphinx_extensions/pep_zero_generator/writer.py:224-261 | The step that claims a PEP is the first, in source order, whose condition it meets. Step 11 means none. |
| Classification.ChainOutcome | pep_sphinx_extensions/pep_zero_generator/writer.py:220-266 | After the whole chain, PEPs are left over exactly when some PEP has no route, and the first of them has none. With nothing left over, the lists are placed by `Route`, partition the input, repeat nothing and are in order. |
| Classification.FirstStage | pep_sphinx_extensions/pep_zero_generator/writer.py:220 | Before any step, the remaining set is the whole input and every list is empty. |
| Classification.LastStageFollowsRoute | pep_sphinx_extensions/pep_zero_generator/writer.py:261-263 | After the last step, the PEPs remaining are exactly those with no route, and each list holds exactly the PEPs routed to it. |
| Classification.ListOrdered | pep_sphinx_extensions/pep_zero_generator/writer.py:224-260 | A single list built by the chain is one sorted run, or two sorted runs for `dead` and `historical`. |
| Classification.RunFollowsRoute | pep_sphinx_extensions/pep_zero_generator/writer.py:220-261 | After all eleven steps, the PEPs still remaining are exactly the input PEPs with no route. Each list holds exactly the input PEPs routed to it, without repetition, grouped by the step that claimed them and sorted by number within a group. |
| Classification.StepKeepsStage | pep_sphinx_extensions/pep_zero_generator/writer.py:224-225 | One sort-then-subtract step keeps the invariant. The remaining set is the PEPs no earlier step selects. Each list is the PEPs an earlier step claimed for it. |
| Classification.RunReachesLastStage | pep_sphinx_extensions/pep_zero_generator/writer.py:224-261 | Running the rest of the chain from any intermediate state that meets the invariant ends in the final state that meets it. |
| Classification.FirstFrom | pep_sphinx_extensions/pep_zero_generator/writer.py:224-261 | The index of the first step from `i` on that selects a PEP. No earlier step from `i` selects it. |
| Classification.RunSteps | pep_sphinx_extensions/pep_zero_generator/writer.py:220-261 | The chain of filter-and-subtract steps: each appends its sorted pick to its list and removes that whole list from the remaining PEPs. Its contract is stated by `Classification.StepKeepsStage`, `Classification.RunReachesLastStage` and `Classification.ChainOutcome`. |
| Classification.Contains | pep_sphinx_extensions/pep_zero_generator/writer.py:247 | `in` on strings. `Classification.ContainsAt` states what it means. |
| Classification.ContainsAt | pep_sphinx_extensions/pep_zero_generator/writer.py:247 | `sub in s` holds exactly when `sub` occurs in `s` starting at some index. |
| Classification.Pick | pep_sphinx_extensions/pep_zero_generator/writer.py:224 | `sorted(pep for pep in remaining if ...)` holds exactly the remaining PEPs meeting the condition, sorted by number, without repetition. |
| Classification.Subtract | pep_sphinx_extensions/pep_zero_generator/writer.py:225 | `remaining -= {...}` keeps exactly the remaining PEPs not in the list taken. |
| Classification.AppendRun | pep_sphinx_extensions/pep_zero_generator/writer.py:239 | Extending a list (`dead += sorted(...)`) with a sorted run claimed by a later step keeps the list grouped by step and sorted within groups. |
| Sequences.DistinctAppend | pep_sphinx_extensions/pep_zero_generator/writer.py:251 | Extending a list with PEPs not already in it introduces no repetition. |
| Classification.RoutedListsPartition | pep_sphinx_extensions/pep_zero_generator/writer.py:263-266 | Lists filled according to `Route` are pairwise disjoint. When every input PEP has a route, their union is the input. |
| Classification.RoutedListsOrdered | pep_sphinx_extensions/pep_zero_generator/writer.py:224-260 | The lists built in one step are each sorted by number. `historical` and `dead` are two sorted runs, Process PEPs first. |
| Classification.OneRunSorted | pep_sphinx_extensions/pep_zero_generator/writer.py:224 | A list whose PEPs all come from one step is sorted by number. |
| Classification.TwoRunsSorted | pep_sphinx_extensions/pep_zero_generator/writer.py:233-239 | A list filled by two steps is all PEPs of the first step, sorted, then all PEPs of the second, sorted. |
| Peps.SortPeps | pep_sphinx_extensions/pep_zero_generator/writer.py:224 | `sorted` over PEPs returns a permutation of its input, sorted by number. It keeps the input's elements and introduces no repetition. |
| Sequences.Dedup | pep_sphinx_extensions/pep_zero_generator/writer.py:220 | `set(peps)` holds exactly the input PEPs, each once. |
| Sequences.DedupSnoc | pep_sphinx_extensions/pep_zero_generator/writer.py:220 | Deduplicating one element more adds that element at the end exactly when it has not been seen, so `Dedup` keeps first appearances in order. |
| Sequences.Filter | pep_sphinx_extensions/pep_zero_generator/writer.py:224 | A comprehension with a condition keeps exactly the elements meeting it, and keeps them free of repetition. |
| Sorting.Insert | pep_sphinx_extensions/pep_zero_generator/writer.py:303 | Inserting into a sorted sequence gives a sorted permutation of the element plus the sequence. |
| Sorting.SortBy | pep_sphinx_extensions/pep_zero_generator/writer.py:303 | `sorted` under a total preorder returns a permutation of its input that is sorted, and free of repetition when the input is. |
| Sorting.SortByStable | pep_sphinx_extensions/pep_zero_generator/writer.py:303 | `sorted` is stable: the elements ranked equal to any given element come out in the order they went in. |
| Sorting.InsertStable | pep_sphinx_extensions/pep_zero_generator/writer.py:303 | Inserting an element places it after none of the elements ranked equal to it. |
| Sorting.ConsSorted | pep_sphinx_extensions/pep_zero_generator/writer.py:303 | An element ranked no higher than every element of a sorted sequence can go in front of it. |
| Emails.VerifyEmailAddresses | pep_sphinx_extensions/pep_zero_generator/writer.py:269-299 | Fails exactly when some author is listed with two or more distinct non-empty emails. On failure it names exactly those authors, each with its emails. On success its keys are exactly the authors listed. Each author maps to its one non-empty email, or to `""` when none was listed. The key order, which `_sort_authors` inherits, is the order in which names first appear across all author entries. |
| Emails.CollectGathers | pep_sphinx_extensions/pep_zero_generator/writer.py:270-281 | The loop records, for every name, exactly the non-empty emails listed with it. An empty email is never recorded. The keys are exactly the names seen. |
| Emails.CollectKeys | pep_sphinx_extensions/pep_zero_generator/writer.py:270-281 | The loop keeps the dictionary's keys matched to its insertion order, each once, and adds exactly the names it visits. |
| Emails.CollectRecords | pep_sphinx_extensions/pep_zero_generator/writer.py:274-281 | For any one name, the loop adds to its set exactly the non-empty emails listed with that name. |
| Emails.SingleEmails | pep_sphinx_extensions/pep_zero_generator/writer.py:283-289 | With no author listed twice with different emails, every key is kept in the same order and mapped to its one email, or to `""` when it has none. |
| Emails.CollectOrder | pep_sphinx_extensions/pep_zero_generator/writer.py:270-275 | A dictionary key is inserted only when its name is first seen, so the keys end up in the order names first appear, each once. |
| Emails.VisitOrder | pep_sphinx_extensions/pep_zero_generator/writer.py:274-281 | One author entry appends its name to the key order when the name is new and leaves the order alone otherwise. |
| Emails.GatherFacts | pep_sphinx_extensions/pep_zero_generator/writer.py:270-281 | The loop run from the empty dictionary over every author entry gives keys in first-appearance order, exactly the names listed, each with exactly its non-empty emails. |
| Emails.Visit | pep_sphinx_extensions/pep_zero_generator/writer.py:273-281 | One iteration of the inner loop. Its contract is stated by `Emails.VisitRecords` and `Emails.VisitOrder`. |
| Emails.Collect | pep_sphinx_extensions/pep_zero_generator/writer.py:270-281 | The first loop as a fold over the author entries. Its contract is stated by `Emails.CollectGathers` and `Emails.CollectOrder`. |
| Emails.NameSeq | pep_sphinx_extensions/pep_zero_generator/writer.py:271-274 | The names of the author entries, one per entry, in visiting order. |
| Emails.VisitRecords | pep_sphinx_extensions/pep_zero_generator/writer.py:273-281 | One author entry adds its name, and adds its email only when the email is non-empty. No other entry changes. |
| Emails.Gather | pep_sphinx_extensions/pep_zero_generator/writer.py:270-281 | The dictionary built over all PEPs maps exactly the names listed to the non-empty emails listed for each. Its keys are in the order names first appear. |
| Emails.AllAuthors | pep_sphinx_extensions/pep_zero_generator/writer.py:271-272 | The nested loops visit exactly the author entries of the input PEPs. |
| Emails.Offenders | pep_sphinx_extensions/pep_zero_generator/writer.py:285-287 | `too_many_emails` holds exactly the authors with more than one email, each paired with its set. |
| Emails.NoOffendersMeansUnique | pep_sphinx_extensions/pep_zero_generator/writer.py:285-290 | No offender is found exactly when every author is listed with at most one distinct non-empty email. |
| Emails.OnlyEmail | pep_sphinx_extensions/pep_zero_generator/writer.py:289 | `next(iter(emails), "")` on a set of at most one element is `""` for the empty set, and otherwise the set's only element. |
| AuthorSort.BeforeComma | pep_sphinx_extensions/pep_zero_generator/writer.py:308 | `split(",")[0]` is the longest comma-free prefix: it is followed by a comma or by the end of the string. |
| AuthorSort.WordEnd | pep_sphinx_extensions/pep_zero_generator/writer.py:309 | The first word ends at the first separator. |
| AuthorSort.Words | pep_sphinx_extensions/pep_zero_generator/writer.py:309 | Every word `split()` returns is non-empty and holds no separator. `AuthorSort.WordsOfWord` and `AuthorSort.WordsSplitAt` pin it down to the maximal runs. |
| AuthorSort.WordsOfWord | pep_sphinx_extensions/pep_zero_generator/writer.py:309 | A non-empty string without separators splits into itself alone. |
| AuthorSort.WordsSplitAt | pep_sphinx_extensions/pep_zero_generator/writer.py:309 | Splitting at any separator character: the words of `a + c + b` are the words of `a` followed by those of `b`. With `split()` of the empty string being empty, this determines the result of `split()` on every string. |
| AuthorSort.WordsKeepText | pep_sphinx_extensions/pep_zero_generator/writer.py:309 | The words of `split()`, concatenated, are the string with its separators removed. |
| AuthorSort.SplitJoin | pep_sphinx_extensions/pep_zero_generator/writer.py:309-312 | Splitting the `" ".join` of words gives the same words back. |
| AuthorSort.JoinSpace | pep_sphinx_extensions/pep_zero_generator/writer.py:312 | `" ".join`. Its contract is stated by `AuthorSort.SplitJoin`: splitting the join of words gives the words back. |
| AuthorSort.FirstCapitalFrom | pep_sphinx_extensions/pep_zero_generator/writer.py:310-311 | The scan for a word whose first character is upper case finds the first such word, or reports that there is none. |
| AuthorSort.SortKey | pep_sphinx_extensions/pep_zero_generator/writer.py:306-315 | `_author_sort_by`. Its contract is stated by `AuthorSort.SortKeyFromFirstCapital`, `AuthorSort.SortKeyWithoutCapital`, `AuthorSort.SortKeyIgnoresForenames` and `AuthorSort.SortKeySkipsLowerWord`. |
| AuthorSort.SortKeyFromFirstCapital | pep_sphinx_extensions/pep_zero_generator/writer.py:310-313 | When some surname word is capitalised, the key is the NFKD form of the lower-cased join of the surname words from the first capitalised one on. |
| AuthorSort.SortKeyWithoutCapital | pep_sphinx_extensions/pep_zero_generator/writer.py:314-315 | When no surname word is capitalised, the key is the NFKD form of the whole surname, lower-cased. |
| AuthorSort.SortKeyIgnoresForenames | pep_sphinx_extensions/pep_zero_generator/writer.py:308 | Nothing after the first comma changes the key. |
| AuthorSort.SortKeySkipsLowerWord | pep_sphinx_extensions/pep_zero_generator/writer.py:306-313 | A leading surname word that starts in lower case ("van", "de") does not change the key when a later word is capitalised. |
| AuthorSort.JoinedSurname | pep_sphinx_extensions/pep_zero_generator/writer.py:308-309 | Comma-free words joined with spaces form a surname whose words are those words. |
| AuthorSort.LexLeTotal | pep_sphinx_extensions/pep_zero_generator/writer.py:303 | Any two keys are comparable under string order. |
| AuthorSort.LexLeTransitive | pep_sphinx_extensions/pep_zero_generator/writer.py:303 | String order is transitive. |
| AuthorSort.KeyOrder | pep_sphinx_extensions/pep_zero_generator/writer.py:303 | Comparing authors by sort key is a total preorder. |
| AuthorSort.LexLeAntisymmetric | pep_sphinx_extensions/pep_zero_generator/writer.py:303 | Two keys each `<=` the other are equal. |
| AuthorSort.LexLe | pep_sphinx_extensions/pep_zero_generator/writer.py:303 | Python's `<=` on the `str` keys. `AuthorSort.LexLeFirstDifference` states what it means. |
| AuthorSort.LexLeFirstDifference | pep_sphinx_extensions/pep_zero_generator/writer.py:303 | `a <= b` on strings holds exactly when `a` is a prefix of `b`, or when `a` has the smaller character at the first index where the two differ. |
| AuthorSort.SortAuthors | pep_sphinx_extensions/pep_zero_generator/writer.py:302-303 | The result lists every author of the table exactly once, in ascending order of sort key. Authors with equal keys keep the table's order. |
| NumericalIndex.LinesFrom | pep_sphinx_extensions/pep_zero_generator/writer.py:146-151 | Erasing the blank lines gives back the PEPs in order. A blank line stands between two rows exactly when the second number exceeds the first by more than one. |
| NumericalIndex.IndexLines | pep_sphinx_extensions/pep_zero_generator/writer.py:146-151 | The same, with the row before the first PEP taken to be number 0. |
| NumericalIndex.LayoutIsUnique | pep_sphinx_extensions/pep_zero_generator/writer.py:146-151 | Any layout with both properties is exactly the one generated. |
| NumericalIndex.PrependRow | pep_sphinx_extensions/pep_zero_generator/writer.py:148-151 | A row without a jump from the previous number, placed before a correct layout, gives a correct layout. |
| NumericalIndex.PrependBlankRow | pep_sphinx_extensions/pep_zero_generator/writer.py:148-151 | A blank line and a row that jumps, placed before a correct layout, give a correct layout. |
| NumericalIndex.DropRow | pep_sphinx_extensions/pep_zero_generator/writer.py:151 | The lines after a row are laid out relative to that row's number. |
| NumericalIndex.DropBlankRow | pep_sphinx_extensions/pep_zero_generator/writer.py:148-151 | A blank line is always followed by a row. The lines after that row are laid out relative to its number. |

## Left out

- The rest of `writer.py`: the RST text of PEP 0. This covers headers, column formatting, title truncation, the reserved-numbers table and the author table's layout. It is text formatting with no logic beyond the parts above.
- The header date. `datetime.date.today()` is a clock read.
- `build.py`. It drives the Sphinx build and writes files, which is I/O outside the index logic.
- The `PEP` and `Author` classes, the parser and the constants `TYPE_VALUES`, `STATUS_VALUES` and `HIDE_STATUS`. They are not part of this model. PEPs and authors are records of the fields the generator reads, and their equality and ordering are the assumptions stated above.
- Unicode: `str.isupper`, `str.lower`, `str.split`'s whitespace test and NFKD normalisation are taken as parameters (`AuthorSort.TextOps`), not defined.
- Classification.Classify: when several PEPs are unclassified, Python raises for whichever one set iteration yields first. That order is unspecified. The model reports the first such PEP in input order, and its contract only promises an unclassified input PEP.
- Classification.Classify: the error message text (`unsorted (type/status)`, file name) is not modelled. The error carries the PEP.
- Emails.VerifyEmailAddresses: the `ValueError` message text is not modelled. The error carries the offending authors and their emails, in first-appearance order. The contract states which pairs it holds, not their order.
- Peps.SortPeps: the contract does not say how PEPs with the same number are ordered. Python's order for them would follow set iteration order, which is unspecified.
