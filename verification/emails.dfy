/** `_verify_email_addresses`: every author must be listed with at most
    one distinct non-empty email address across all PEPs. */
module Emails {
  import opened Wrappers
  import opened Sequences
  import opened Peps

  /** Every author entry of every PEP, in the order the two nested loops
      of the source visit them. */
  function AllAuthors(peps: seq<Pep>): (r: seq<Author>)
    ensures forall a :: a in r <==> exists p :: p in peps && a in p.authors
  {
    if peps == [] then []
    else peps[0].authors + AllAuthors(peps[1..])
  }

  /** The name of each author entry, in order. */
  function NameSeq(authors: seq<Author>): (r: seq<string>)
    ensures |r| == |authors|
    ensures forall i :: 0 <= i < |authors| ==> r[i] == authors[i].lastFirst
  {
    if authors == [] then [] else [authors[0].lastFirst] + NameSeq(authors[1..])
  }

  /** The names of the authors listed. */
  ghost function Names(authors: seq<Author>): set<string> {
    set a | a in authors :: a.lastFirst
  }

  /** The non-empty emails listed for the author called `name`. */
  ghost function EmailsOf(authors: seq<Author>, name: string): set<string> {
    set a | a in authors && a.lastFirst == name && a.email != "" :: a.email
  }

  /** The dictionary the first loop builds, from author to the set of
      emails seen; `order` records the order in which keys were first
      inserted, which is the order Python iterates the dictionary in. */
  datatype EmailSets = EmailSets(order: seq<string>, emails: map<string, set<string>>)

  /** The keys of `d` are exactly those of its insertion order, each once. */
  ghost predicate WellFormed(d: EmailSets) {
    Distinct(d.order) && forall n :: n in d.order <==> n in d.emails
  }

  /** The set recorded for `name` so far, empty when there is none. */
  ghost function Recorded(d: EmailSets, name: string): set<string> {
    if name in d.emails then d.emails[name] else {}
  }

  /** One iteration of the inner loop of `_verify_email_addresses`, over
      the authors of one PEP. */
  function Visit(d: EmailSets, a: Author): EmailSets {
    if a.lastFirst !in d.emails then
      EmailSets(d.order + [a.lastFirst],
                d.emails[a.lastFirst := if a.email != "" then {a.email} else {}])
    else if a.email == "" then
      d
    else
      EmailSets(d.order, d.emails[a.lastFirst := d.emails[a.lastFirst] + {a.email}])
  }

  /** The first loop of `_verify_email_addresses`, folded over the author
      entries. */
  function Collect(d: EmailSets, authors: seq<Author>): EmailSets
    decreases |authors|
  {
    if authors == [] then d
    else Collect(Visit(d, authors[0]), authors[1..])
  }

  /** Visiting one author records its name and, when non-empty, its email;
      nothing else changes. */
  lemma VisitRecords(d: EmailSets, a: Author)
    requires WellFormed(d)
    ensures WellFormed(Visit(d, a))
    ensures Visit(d, a).emails.Keys == d.emails.Keys + {a.lastFirst}
    ensures forall n :: Recorded(Visit(d, a), n) ==
                        Recorded(d, n) + (if n == a.lastFirst && a.email != "" then {a.email} else {})
  {
  }

  /** The names of a non-empty list: its first author's and the rest's. */
  lemma NamesCons(authors: seq<Author>)
    requires authors != []
    ensures Names(authors) == {authors[0].lastFirst} + Names(authors[1..])
  {
  }

  /** The emails of `name` in a non-empty list: the first author's, when
      it is `name`'s and non-empty, and those of the rest. */
  lemma EmailsOfCons(authors: seq<Author>, name: string)
    requires authors != []
    ensures EmailsOf(authors, name) ==
      (if authors[0].lastFirst == name && authors[0].email != "" then {authors[0].email} else {})
      + EmailsOf(authors[1..], name)
  {
  }

  /** The fold keeps the dictionary well formed and adds the names of
      the authors visited to its keys. */
  lemma {:induction false} CollectKeys(d: EmailSets, authors: seq<Author>)
    requires WellFormed(d)
    ensures WellFormed(Collect(d, authors))
    ensures Collect(d, authors).emails.Keys == d.emails.Keys + Names(authors)
    decreases |authors|
  {
    if authors != [] {
      NamesCons(authors);
      VisitRecords(d, authors[0]);
      CollectKeys(Visit(d, authors[0]), authors[1..]);
    }
  }

  /** The fold adds to the set recorded for `n` exactly the non-empty
      emails listed with `n`. */
  lemma {:induction false} CollectRecords(d: EmailSets, authors: seq<Author>, n: string)
    requires WellFormed(d)
    ensures Recorded(Collect(d, authors), n) == Recorded(d, n) + EmailsOf(authors, n)
    decreases |authors|
  {
    if authors != [] {
      var a, rest := authors[0], authors[1..];
      EmailsOfCons(authors, n);
      VisitRecords(d, a);
      CollectRecords(Visit(d, a), rest, n);
    }
  }

  /** The fold gathers, for every name, exactly the non-empty emails
      listed with it. */
  lemma CollectGathers(d: EmailSets, authors: seq<Author>)
    requires WellFormed(d)
    ensures WellFormed(Collect(d, authors))
    ensures Collect(d, authors).emails.Keys == d.emails.Keys + Names(authors)
    ensures forall n :: Recorded(Collect(d, authors), n) == Recorded(d, n) + EmailsOf(authors, n)
  {
    CollectKeys(d, authors);
    forall n ensures Recorded(Collect(d, authors), n) == Recorded(d, n) + EmailsOf(authors, n) {
      CollectRecords(d, authors, n);
    }
  }

  /** Visiting an author appends its name to the insertion order when
      the name is new, and leaves the order alone otherwise. */
  lemma VisitOrder(d: EmailSets, a: Author)
    requires WellFormed(d)
    ensures Visit(d, a).order == if a.lastFirst in d.order then d.order else d.order + [a.lastFirst]
  {
  }

  /** The fold inserts new keys in the order their names first appear:
      starting from keys inserted in the order names first appear in
      `done`, it ends with those of `done` followed by `authors`. */
  lemma {:induction false} CollectOrder(d: EmailSets, done: seq<string>, authors: seq<Author>)
    requires WellFormed(d)
    requires d.order == Dedup(done)
    ensures Collect(d, authors).order == Dedup(done + NameSeq(authors))
    decreases |authors|
  {
    if authors == [] {
      assert done + NameSeq(authors) == done;
    } else {
      var a, rest := authors[0], authors[1..];
      var done' := done + [a.lastFirst];
      assert Collect(d, authors) == Collect(Visit(d, a), rest);
      assert NameSeq(authors) == [a.lastFirst] + NameSeq(rest);
      assert done' + NameSeq(rest) == done + NameSeq(authors);
      DedupSnoc(done, a.lastFirst);
      VisitOrder(d, a);
      assert Visit(d, a).order == Dedup(done');
      VisitRecords(d, a);
      CollectOrder(Visit(d, a), done', rest);
    }
  }

  /** The fold from the empty dictionary over all author entries. */
  lemma GatherFacts(all: seq<Author>)
    ensures var d := Collect(EmailSets([], map[]), all);
      && WellFormed(d)
      && d.order == Dedup(NameSeq(all))
      && d.emails.Keys == Names(all)
      && forall n :: n in d.emails ==> d.emails[n] == EmailsOf(all, n)
  {
    var d0 := EmailSets([], map[]);
    CollectGathers(d0, all);
    CollectOrder(d0, [], all);
    assert [] + NameSeq(all) == NameSeq(all);
    var d := Collect(d0, all);
    forall n | n in d.emails ensures d.emails[n] == EmailsOf(all, n) {
      assert Recorded(d, n) == d.emails[n];
    }
  }

  /** The dictionary of email sets built from all author entries: its keys
      are the names listed, in first-appearance order, and each holds the
      non-empty emails listed for that name. */
  function Gather(peps: seq<Pep>): (d: EmailSets)
    ensures WellFormed(d)
    ensures d.order == Dedup(NameSeq(AllAuthors(peps)))
    ensures d.emails.Keys == Names(AllAuthors(peps))
    ensures forall n :: n in d.emails ==> d.emails[n] == EmailsOf(AllAuthors(peps), n)
  {
    var all := AllAuthors(peps);
    GatherFacts(all);
    var d := Collect(EmailSets([], map[]), all);
    d
  }

  /** Raised when some authors are listed with several emails: each such
      author with the emails found, in first-appearance order. */
  datatype EmailError = TooManyEmails(offenders: seq<(string, set<string>)>)

  /** The returned dictionary: each author's single email, or `""`, with
      the keys in first-appearance order. */
  datatype AuthorTable = AuthorTable(order: seq<string>, email: map<string, string>)

  /** `next(iter(emails), "")` on a set with at most one element. */
  function OnlyEmail(emails: set<string>): (r: string)
    requires |emails| <= 1
    ensures emails == {} ==> r == ""
    ensures emails != {} ==> emails == {r}
  {
    if emails == {} then ""
    else
      var e :| e in emails;
      assert emails == {e} by {
        assert |emails - {e}| == 0;
      }
      e
  }

  /** The authors in `order` with more than one email, with those emails. */
  function Offenders(order: seq<string>, emails: map<string, set<string>>): (r: seq<(string, set<string>)>)
    ensures forall n, e :: (n, e) in r <==> n in order && n in emails && |emails[n]| > 1 && e == emails[n]
  {
    if order == [] then []
    else
      var n := order[0];
      var rest := Offenders(order[1..], emails);
      if n in emails && |emails[n]| > 1 then [(n, emails[n])] + rest else rest
  }

  /** The check of `_verify_email_addresses` for authors with several
      emails finds no offender exactly when every author is listed with
      at most one distinct non-empty email. */
  lemma NoOffendersMeansUnique(peps: seq<Pep>)
    ensures var d := Gather(peps);
      Offenders(d.order, d.emails) == [] <==>
      forall n :: n in Names(AllAuthors(peps)) ==> |EmailsOf(AllAuthors(peps), n)| <= 1
    ensures var d := Gather(peps);
      Offenders(d.order, d.emails) == [] ==> forall n :: n in d.emails ==> |d.emails[n]| <= 1
  {
    var all := AllAuthors(peps);
    var d := Gather(peps);
    var offenders := Offenders(d.order, d.emails);
    if offenders != [] {
      var n := offenders[0].0;
      assert offenders[0] in offenders;
      assert n in Names(all) && |EmailsOf(all, n)| > 1;
    } else {
      forall n | n in d.emails ensures |d.emails[n]| <= 1 {
        assert n in d.order;
        assert (n, d.emails[n]) !in offenders;
      }
    }
  }

  /** The second loop of `_verify_email_addresses` when no author has
      several emails: every key, in the same order, mapped to its one
      email or to `""`. */
  function SingleEmails(d: EmailSets): (t: AuthorTable)
    requires forall n :: n in d.emails ==> |d.emails[n]| <= 1
    ensures t.order == d.order
    ensures t.email.Keys == d.emails.Keys
    ensures forall n :: n in t.email ==>
      if d.emails[n] == {} then t.email[n] == "" else d.emails[n] == {t.email[n]}
  {
    AuthorTable(d.order, map n | n in d.emails :: OnlyEmail(d.emails[n]))
  }

  /** `_verify_email_addresses`. It fails exactly when some author is
      listed with two or more distinct non-empty emails, and then names
      exactly those authors with the emails found. Otherwise every author
      listed, and no one else, is mapped to the one non-empty email listed
      for them, or to `""` when none is. */
  function VerifyEmailAddresses(peps: seq<Pep>): (r: Result<AuthorTable, EmailError>)
    ensures r.Ok? <==> forall n :: n in Names(AllAuthors(peps)) ==> |EmailsOf(AllAuthors(peps), n)| <= 1
    ensures r.Err? ==> forall n, e :: (n, e) in r.error.offenders <==>
      n in Names(AllAuthors(peps)) && |EmailsOf(AllAuthors(peps), n)| > 1 && e == EmailsOf(AllAuthors(peps), n)
    ensures r.Ok? ==> r.value.email.Keys == Names(AllAuthors(peps))
    ensures r.Ok? ==> forall n :: n in r.value.email ==>
      if EmailsOf(AllAuthors(peps), n) == {} then r.value.email[n] == ""
      else EmailsOf(AllAuthors(peps), n) == {r.value.email[n]}
    ensures r.Ok? ==> Distinct(r.value.order) && forall n :: n in r.value.order <==> n in r.value.email
    ensures r.Ok? ==> r.value.order == Dedup(NameSeq(AllAuthors(peps)))
  {
    var d := Gather(peps);
    var offenders := Offenders(d.order, d.emails);
    NoOffendersMeansUnique(peps);
    if offenders != [] then
      Err(TooManyEmails(offenders))
    else
      Ok(SingleEmails(d))
  }
}
