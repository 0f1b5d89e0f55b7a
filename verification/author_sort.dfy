/** `_author_sort_by` and `_sort_authors`: the order of the author table.
    Authors sort by surname, skipping leading surname words that do not
    start with a capital ("van", "de", ...), compared case-insensitively. */
module AuthorSort {
  import opened Wrappers
  import opened Sequences
  import opened Sorting
  import opened Emails

  /** The Unicode behaviour the key relies on, which this model takes as
      given rather than defining: the separators of `str.split()`,
      `str.isupper` on one character, `str.lower`, and NFKD
      normalisation. */
  datatype TextOps = TextOps(
    isSpace: char -> bool,
    isUpper: char -> bool,
    lower: string -> string,
    nfkd: string -> string)

  /** `s.split(",")[0]`: the text before the first comma. */
  function BeforeComma(s: string): (r: string)
    ensures r <= s
    ensures ',' !in r
    ensures |r| < |s| ==> s[|r|] == ','
  {
    if s == [] || s[0] == ',' then []
    else [s[0]] + BeforeComma(s[1..])
  }

  /** The length of the run of non-separator characters `s` starts with. */
  function WordEnd(s: string, isSpace: char -> bool): (n: nat)
    ensures n <= |s|
    ensures forall i :: 0 <= i < n ==> !isSpace(s[i])
    ensures n < |s| ==> isSpace(s[n])
  {
    if s == [] || isSpace(s[0]) then 0
    else 1 + WordEnd(s[1..], isSpace)
  }

  /** A word of `str.split()`: non-empty, without separators. */
  ghost predicate IsWord(w: string, isSpace: char -> bool) {
    |w| > 0 && forall i :: 0 <= i < |w| ==> !isSpace(w[i])
  }

  /** `s.split()`: the maximal runs of non-separator characters. */
  function Words(s: string, isSpace: char -> bool): (ws: seq<string>)
    ensures forall i :: 0 <= i < |ws| ==> IsWord(ws[i], isSpace)
    decreases |s|
  {
    if s == [] then []
    else if isSpace(s[0]) then Words(s[1..], isSpace)
    else
      var n := WordEnd(s, isSpace);
      [s[..n]] + Words(s[n..], isSpace)
  }

  /** `" ".join(ws)`. */
  function JoinSpace(ws: seq<string>): string {
    if ws == [] then ""
    else if |ws| == 1 then ws[0]
    else ws[0] + " " + JoinSpace(ws[1..])
  }

  /** The concatenation of `ws`. */
  function Concat(ws: seq<string>): string {
    if ws == [] then "" else ws[0] + Concat(ws[1..])
  }

  /** Splitting keeps every non-separator character, in order, and
      nothing else. */
  lemma {:induction false} WordsKeepText(s: string, isSpace: char -> bool)
    ensures Concat(Words(s, isSpace)) == Filter(s, c => !isSpace(c))
    decreases |s|
  {
    var keep := c => !isSpace(c);
    if s == [] {
    } else if isSpace(s[0]) {
      assert s == [s[0]] + s[1..];
      FilterAppend([s[0]], s[1..], keep);
      WordsKeepText(s[1..], isSpace);
    } else {
      var n := WordEnd(s, isSpace);
      assert s == s[..n] + s[n..];
      FilterAppend(s[..n], s[n..], keep);
      FilterAll(s[..n], keep);
      WordsKeepText(s[n..], isSpace);
    }
  }

  /** Filtering with a condition every element meets changes nothing. */
  lemma {:induction false} FilterAll(s: string, keep: char -> bool)
    requires forall i :: 0 <= i < |s| ==> keep(s[i])
    ensures Filter(s, keep) == s
  {
    if s != [] {
      FilterAll(s[1..], keep);
    }
  }

  /** The first word of `w + rest` ends where `w` ends, when `rest`
      starts with a separator. */
  lemma WordEndAt(w: string, rest: string, isSpace: char -> bool)
    requires IsWord(w, isSpace)
    requires rest == [] || isSpace(rest[0])
    ensures WordEnd(w + rest, isSpace) == |w|
  {
    var s := w + rest;
    assert forall i :: 0 <= i < |w| ==> s[i] == w[i];
    assert |w| < |s| ==> s[|w|] == rest[0];
  }

  /** The first word of `a + t` is the first word of `a` when that word
      ends inside `a` or `t` starts with a separator. */
  lemma {:induction false} WordEndExtend(a: string, t: string, isSpace: char -> bool)
    requires WordEnd(a, isSpace) < |a| || (t != [] && isSpace(t[0]))
    ensures WordEnd(a + t, isSpace) == WordEnd(a, isSpace)
  {
    if a != [] && !isSpace(a[0]) {
      assert (a + t)[1..] == a[1..] + t;
      WordEndExtend(a[1..], t, isSpace);
    } else if a == [] {
      assert a + t == t;
    }
  }

  /** A single word splits into itself. */
  lemma WordsOfWord(w: string, isSpace: char -> bool)
    requires IsWord(w, isSpace)
    ensures Words(w, isSpace) == [w]
  {
    WordEndAt(w, [], isSpace);
    assert w + [] == w;
    assert w[..|w|] == w && w[|w|..] == [];
  }

  /** `Words` on a string that starts with a separator skips it. */
  lemma WordsSpaceHead(s: string, isSpace: char -> bool)
    requires s != [] && isSpace(s[0])
    ensures Words(s, isSpace) == Words(s[1..], isSpace)
  {
  }

  /** `Words` on a string that starts with a word takes that word first. */
  lemma WordsWordHead(s: string, isSpace: char -> bool)
    requires s != [] && !isSpace(s[0])
    ensures Words(s, isSpace) ==
      [s[..WordEnd(s, isSpace)]] + Words(s[WordEnd(s, isSpace)..], isSpace)
  {
  }

  /** Splitting at a separator: the words of `a + [c] + b` are those of
      `a` followed by those of `b`. Together with `Words([]) == []` and
      `WordsOfWord`, this pins `Words` down to `str.split()`. */
  lemma {:induction false} WordsSplitAt(a: string, c: char, b: string, isSpace: char -> bool)
    requires isSpace(c)
    ensures Words(a + [c] + b, isSpace) == Words(a, isSpace) + Words(b, isSpace)
    decreases |a|
  {
    var s := a + [c] + b;
    if a == [] {
      calc {
        Words(s, isSpace);
      == { WordsSpaceHead(s, isSpace); assert s[1..] == b; }
        Words(b, isSpace);
      == { assert Words(a, isSpace) == []; }
        Words(a, isSpace) + Words(b, isSpace);
      }
    } else if isSpace(a[0]) {
      calc {
        Words(s, isSpace);
      == { WordsSpaceHead(s, isSpace); assert s[1..] == a[1..] + [c] + b; }
        Words(a[1..] + [c] + b, isSpace);
      == { WordsSplitAt(a[1..], c, b, isSpace); }
        Words(a[1..], isSpace) + Words(b, isSpace);
      == { WordsSpaceHead(a, isSpace); }
        Words(a, isSpace) + Words(b, isSpace);
      }
    } else {
      var n := WordEnd(a, isSpace);
      var t := [c] + b;
      calc {
        Words(s, isSpace);
      == { assert s == a + t; WordEndExtend(a, t, isSpace); WordsWordHead(s, isSpace); }
        [s[..n]] + Words(s[n..], isSpace);
      == { assert s[..n] == a[..n]; assert s[n..] == a[n..] + [c] + b; }
        [a[..n]] + Words(a[n..] + [c] + b, isSpace);
      == { WordsSplitAt(a[n..], c, b, isSpace); }
        [a[..n]] + (Words(a[n..], isSpace) + Words(b, isSpace));
      == { WordsWordHead(a, isSpace); }
        Words(a, isSpace) + Words(b, isSpace);
      }
    }
  }

  /** Joining words with single spaces and splitting again gives the
      words back. */
  lemma {:induction false} SplitJoin(ws: seq<string>, isSpace: char -> bool)
    requires isSpace(' ')
    requires forall i :: 0 <= i < |ws| ==> IsWord(ws[i], isSpace)
    ensures Words(JoinSpace(ws), isSpace) == ws
  {
    if ws != [] {
      var w := ws[0];
      var s := JoinSpace(ws);
      assert IsWord(w, isSpace);
      var rest := if |ws| == 1 then "" else " " + JoinSpace(ws[1..]);
      assert s == w + rest;
      WordEndAt(w, rest, isSpace);
      assert s[..|w|] == w && s[|w|..] == rest;
      assert Words(s, isSpace) == [w] + Words(rest, isSpace);
      if |ws| > 1 {
        assert rest[1..] == JoinSpace(ws[1..]);
        assert Words(rest, isSpace) == Words(JoinSpace(ws[1..]), isSpace);
        SplitJoin(ws[1..], isSpace);
      }
    }
  }

  /** The index of the first word from `i` on that starts with a capital. */
  function FirstCapitalFrom(words: seq<string>, i: nat, isUpper: char -> bool): (r: Option<nat>)
    requires i <= |words|
    requires forall j :: 0 <= j < |words| ==> |words[j]| > 0
    ensures r.Some? ==> i <= r.value < |words| && isUpper(words[r.value][0])
    ensures r.Some? ==> forall j :: i <= j < r.value ==> !isUpper(words[j][0])
    ensures r.None? ==> forall j :: i <= j < |words| ==> !isUpper(words[j][0])
    decreases |words| - i
  {
    if i == |words| then None
    else if isUpper(words[i][0]) then Some(i)
    else FirstCapitalFrom(words, i + 1, isUpper)
  }

  /** `_author_sort_by`, on the author's `lastFirst` name. */
  function SortKey(lastFirst: string, ops: TextOps): string {
    var surname := BeforeComma(lastFirst);
    var parts := Words(surname, ops.isSpace);
    match FirstCapitalFrom(parts, 0, ops.isUpper)
    case Some(i) => ops.nfkd(ops.lower(JoinSpace(parts[i..])))
    case None => ops.nfkd(ops.lower(surname))
  }

  /** The words of the surname of `lastFirst`. */
  function SurnameWords(lastFirst: string, ops: TextOps): seq<string> {
    Words(BeforeComma(lastFirst), ops.isSpace)
  }

  /** When some surname word starts with a capital, the key is the
      normalised lower case of the surname words from the first such word
      on, joined by single spaces. */
  lemma SortKeyFromFirstCapital(lastFirst: string, ops: TextOps, i: nat)
    requires i < |SurnameWords(lastFirst, ops)|
    requires ops.isUpper(SurnameWords(lastFirst, ops)[i][0])
    requires forall j :: 0 <= j < i ==> !ops.isUpper(SurnameWords(lastFirst, ops)[j][0])
    ensures SortKey(lastFirst, ops) == ops.nfkd(ops.lower(JoinSpace(SurnameWords(lastFirst, ops)[i..])))
  {
  }

  /** When no surname word starts with a capital, the key is the
      normalised lower case of the whole surname. */
  lemma SortKeyWithoutCapital(lastFirst: string, ops: TextOps)
    requires forall j :: 0 <= j < |SurnameWords(lastFirst, ops)| ==> !ops.isUpper(SurnameWords(lastFirst, ops)[j][0])
    ensures SortKey(lastFirst, ops) == ops.nfkd(ops.lower(BeforeComma(lastFirst)))
  {
    var parts := SurnameWords(lastFirst, ops);
    assert FirstCapitalFrom(parts, 0, ops.isUpper).None?;
  }

  /** The text before the first comma of `surname + "," + rest` is
      `surname`, when `surname` has no comma. */
  lemma {:induction false} BeforeCommaAppend(surname: string, rest: string)
    requires ',' !in surname
    ensures rest == [] || rest[0] == ',' ==> BeforeComma(surname + rest) == surname
  {
    if surname != [] {
      assert (surname + rest)[0] == surname[0];
      assert (surname + rest)[1..] == surname[1..] + rest;
      BeforeCommaAppend(surname[1..], rest);
    }
  }

  /** Nothing after the first comma affects the key. */
  lemma SortKeyIgnoresForenames(surname: string, rest: string, ops: TextOps)
    requires ',' !in surname
    ensures SortKey(surname + "," + rest, ops) == SortKey(surname, ops)
  {
    BeforeCommaAppend(surname, "," + rest);
    BeforeCommaAppend(surname, "");
    assert surname + "" == surname;
    assert surname + "," + rest == surname + ("," + rest);
  }

  /** Comma-free words joined by spaces form a surname that splits back
      into the same words. */
  lemma JoinedSurname(words: seq<string>, ops: TextOps)
    requires ops.isSpace(' ')
    requires forall i :: 0 <= i < |words| ==> IsWord(words[i], ops.isSpace) && ',' !in words[i]
    ensures SurnameWords(JoinSpace(words), ops) == words
  {
    NoCommaInJoin(words);
    BeforeCommaAppend(JoinSpace(words), "");
    assert JoinSpace(words) + "" == JoinSpace(words);
    SplitJoin(words, ops.isSpace);
  }

  /** The key of a surname made of comma-free words joined by spaces,
      when the word at `k` is the first capitalised one. */
  lemma KeyOfJoined(words: seq<string>, ops: TextOps, k: nat)
    requires ops.isSpace(' ')
    requires forall i :: 0 <= i < |words| ==> IsWord(words[i], ops.isSpace) && ',' !in words[i]
    requires k < |words| && |words[k]| > 0 && ops.isUpper(words[k][0])
    requires forall j :: 0 <= j < k ==> |words[j]| > 0 && !ops.isUpper(words[j][0])
    ensures SortKey(JoinSpace(words), ops) == ops.nfkd(ops.lower(JoinSpace(words[k..])))
  {
    JoinedSurname(words, ops);
    SortKeyFromFirstCapital(JoinSpace(words), ops, k);
  }

  /** A leading surname word that is not capitalised is skipped: dropping
      it leaves the key unchanged, as long as a later word is capitalised. */
  lemma SortKeySkipsLowerWord(words: seq<string>, ops: TextOps)
    requires ops.isSpace(' ')
    requires forall i :: 0 <= i < |words| ==> IsWord(words[i], ops.isSpace) && ',' !in words[i]
    requires |words| > 0 && |words[0]| > 0 && !ops.isUpper(words[0][0])
    requires exists i :: 0 < i < |words| && |words[i]| > 0 && ops.isUpper(words[i][0])
    ensures SortKey(JoinSpace(words), ops) == SortKey(JoinSpace(words[1..]), ops)
  {
    var i :| 0 < i < |words| && |words[i]| > 0 && ops.isUpper(words[i][0]);
    var first := FirstCapitalFrom(words, 0, ops.isUpper);
    assert first.Some?;
    var k := first.value;
    KeyOfJoined(words, ops, k);
    var tail := words[1..];
    forall j | 0 <= j < |tail| ensures IsWord(tail[j], ops.isSpace) && ',' !in tail[j] {
      assert tail[j] == words[j + 1];
    }
    forall j | 0 <= j < k - 1 ensures |tail[j]| > 0 && !ops.isUpper(tail[j][0]) {
      assert tail[j] == words[j + 1];
    }
    KeyOfJoined(tail, ops, k - 1);
    assert tail[k - 1..] == words[k..];
  }

  /** Joining comma-free words with spaces adds no comma. */
  lemma {:induction false} NoCommaInJoin(ws: seq<string>)
    requires forall i :: 0 <= i < |ws| ==> ',' !in ws[i]
    ensures ',' !in JoinSpace(ws)
  {
    if |ws| > 1 {
      NoCommaInJoin(ws[1..]);
    }
  }

  /** Python's `<=` on strings: lexicographic by code point. */
  predicate LexLe(a: string, b: string) {
    if a == [] then true
    else if b == [] then false
    else if a[0] != b[0] then a[0] < b[0]
    else LexLe(a[1..], b[1..])
  }

  /** Python's string comparison: `a <= b` when `a` is a prefix of `b`,
      or when at the first index where they differ `a` has the smaller
      code point. */
  lemma {:induction false} LexLeFirstDifference(a: string, b: string)
    ensures LexLe(a, b) <==>
      a <= b || exists k :: 0 <= k < |a| && k < |b| && a[..k] == b[..k] && a[k] < b[k]
  {
    if a != [] && b != [] && a[0] == b[0] {
      LexLeFirstDifference(a[1..], b[1..]);
      if exists k :: 0 <= k < |a[1..]| && k < |b[1..]| && a[1..][..k] == b[1..][..k] && a[1..][k] < b[1..][k] {
        var k :| 0 <= k < |a[1..]| && k < |b[1..]| && a[1..][..k] == b[1..][..k] && a[1..][k] < b[1..][k];
        assert a[..k + 1] == [a[0]] + a[1..][..k];
        assert b[..k + 1] == [b[0]] + b[1..][..k];
      }
      if exists k :: 0 <= k < |a| && k < |b| && a[..k] == b[..k] && a[k] < b[k] {
        var k :| 0 <= k < |a| && k < |b| && a[..k] == b[..k] && a[k] < b[k];
        assert k != 0;
        assert a[1..][..k - 1] == a[..k][1..];
        assert b[1..][..k - 1] == b[..k][1..];
      }
      assert a <= b <==> a[1..] <= b[1..];
    } else if a != [] && b != [] {
      assert a[..0] == b[..0];
    }
  }

  /** Any two strings are comparable. */
  lemma {:induction false} LexLeTotal(a: string, b: string)
    ensures LexLe(a, b) || LexLe(b, a)
  {
    if a != [] && b != [] && a[0] == b[0] {
      LexLeTotal(a[1..], b[1..]);
    }
  }

  /** String order is transitive. */
  lemma {:induction false} LexLeTransitive(a: string, b: string, c: string)
    requires LexLe(a, b) && LexLe(b, c)
    ensures LexLe(a, c)
  {
    if a != [] && b != [] && c != [] && a[0] == b[0] && b[0] == c[0] {
      LexLeTransitive(a[1..], b[1..], c[1..]);
    }
  }

  /** Strings that are each `<=` the other are equal. */
  lemma {:induction false} LexLeAntisymmetric(a: string, b: string)
    requires LexLe(a, b) && LexLe(b, a)
    ensures a == b
  {
    if a != [] && b != [] {
      LexLeAntisymmetric(a[1..], b[1..]);
      assert a == [a[0]] + a[1..] && b == [b[0]] + b[1..];
    }
  }

  /** The authors whose key is that of `a`. */
  function SameKeyAs(ops: TextOps, a: string): string -> bool {
    b => SortKey(b, ops) == SortKey(a, ops)
  }

  /** The comparison `sorted(..., key=_author_sort_by)` uses. */
  function KeyOrder(ops: TextOps): (le: (string, string) -> bool)
    ensures TotalPreorder(le)
  {
    var le := (a: string, b: string) => LexLe(SortKey(a, ops), SortKey(b, ops));
    forall a, b ensures le(a, b) || le(b, a) {
      LexLeTotal(SortKey(a, ops), SortKey(b, ops));
    }
    forall a, b, c | le(a, b) && le(b, c) ensures le(a, c) {
      LexLeTransitive(SortKey(a, ops), SortKey(b, ops), SortKey(c, ops));
    }
    le
  }

  /** `_sort_authors`: every author of the table exactly once, in
      ascending order of sort key; authors with equal keys keep the order
      of the table, as Python's sort is stable. */
  function SortAuthors(table: AuthorTable, ops: TextOps): (r: seq<string>)
    requires Distinct(table.order)
    ensures multiset(r) == multiset(table.order)
    ensures Distinct(r)
    ensures forall i, j :: 0 <= i < j < |r| ==> LexLe(SortKey(r[i], ops), SortKey(r[j], ops))
    ensures forall a :: Filter(r, SameKeyAs(ops, a)) == Filter(table.order, SameKeyAs(ops, a))
  {
    var le := KeyOrder(ops);
    var r := SortBy(table.order, le);
    forall a ensures Filter(r, SameKeyAs(ops, a)) == Filter(table.order, SameKeyAs(ops, a)) {
      forall b ensures Equivalent(le, a)(b) == SameKeyAs(ops, a)(b) {
        if Equivalent(le, a)(b) {
          LexLeAntisymmetric(SortKey(b, ops), SortKey(a, ops));
        }
      }
      SortByStable(table.order, le, a);
      FilterCongruent(r, Equivalent(le, a), SameKeyAs(ops, a));
      FilterCongruent(table.order, Equivalent(le, a), SameKeyAs(ops, a));
    }
    r
  }
}
