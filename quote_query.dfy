/** The query over a loaded store: an optional author filter, matched without
    regard to case, and one record drawn from what remains. The store is a
    value here, so the query cannot change it. */
module QuoteQuery {
  import opened QuoteStore

  /** The query's optional argument. */
  datatype Option<T> = None | Some(value: T)

  /** The query's answer: a record's quote and its author as stored, or an
      explicit "no match", which is an ordinary answer and not an error. */
  datatype Response = Found(quote: string, author: string) | NotFound

  /** An ASCII upper-case letter. */
  predicate IsUpper(c: char) {
    'A' <= c <= 'Z'
  }

  /** The two characters are the same letter, ignoring ASCII case, or the
      same character. */
  predicate SameLetter(c: char, d: char) {
    c == d
    || (IsUpper(c) && d as int == c as int + 32)
    || (IsUpper(d) && c as int == d as int + 32)
  }

  /** Lower-casing of one character: the same letter, never upper-case. */
  function LowerChar(c: char): (r: char)
    ensures !IsUpper(r)
    ensures SameLetter(c, r)
  {
    if IsUpper(c) then (c as int + 32) as char else c
  }

  /** Lower-casing of a string: the same letters in the same places, none of
      them upper-case. */
  function Lower(s: string): (r: string)
    ensures |r| == |s|
    ensures forall i :: 0 <= i < |s| ==> !IsUpper(r[i]) && SameLetter(s[i], r[i])
  {
    seq(|s|, i requires 0 <= i < |s| => LowerChar(s[i]))
  }

  /** Two characters lower-case alike exactly when they are the same letter
      ignoring case. */
  lemma LowerCharSame(c: char, d: char)
    ensures LowerChar(c) == LowerChar(d) <==> SameLetter(c, d)
  {
  }

  /** Two names lower-case alike exactly when they have the same length and
      the same letter, ignoring case, at every position. */
  lemma LowerSame(a: string, b: string)
    ensures Lower(a) == Lower(b) <==> |a| == |b| && forall i :: 0 <= i < |a| ==> SameLetter(a[i], b[i])
  {
  }

  /** A record is by the requested author exactly when the two names agree
      letter by letter, ignoring case. */
  lemma SameAuthorLetters(q: Quote, author: string)
    ensures SameAuthor(q, author) <==>
      |q.author| == |author| && forall i :: 0 <= i < |author| ==> SameLetter(q.author[i], author[i])
  {
  }

  /** An author argument filters only when it is truthy: absent and empty
      arguments are falsy, every other string is truthy. */
  predicate Requested(author: Option<string>) {
    author.Some? && author.value != ""
  }

  /** A record belongs to the requested author: the two names are equal once
      lower-cased. The stored spelling always matches, and a match never
      differs in length. */
  predicate SameAuthor(q: Quote, author: string)
    ensures q.author == author ==> SameAuthor(q, author)
    ensures SameAuthor(q, author) ==> |q.author| == |author|
  {
    Lower(q.author) == Lower(author)
  }

  /** The store's records by one author, in store order. */
  function ByAuthor(store: seq<Quote>, author: string): (r: seq<Quote>)
    ensures forall i :: 0 <= i < |r| ==> SameAuthor(r[i], author)
    ensures |r| <= |store|
    decreases |store|
  {
    if store == [] then []
    else
      (if SameAuthor(store[0], author) then [store[0]] else []) + ByAuthor(store[1..], author)
  }

  /** The records the query draws from: the author's records when an author
      is requested, the whole store otherwise. */
  function Candidates(store: seq<Quote>, author: Option<string>): (r: seq<Quote>)
    ensures Requested(author) ==> forall q :: q in r <==> q in store && SameAuthor(q, author.value)
    ensures !Requested(author) ==> r == store
  {
    if Requested(author) then
      ByAuthorCounts(store, author.value);
      ByAuthor(store, author.value)
    else store
  }

  /** The query: filter, then draw any one candidate and answer with its quote
      and stored author, or answer "no match" when there is no candidate. */
  method RandomQuote(store: seq<Quote>, author: Option<string>) returns (r: Response)
    ensures r.NotFound? <==> Candidates(store, author) == []
    ensures r.Found? ==> exists q :: q in Candidates(store, author) && r == Found(q.text, q.author)
    ensures r.Found? ==> exists q :: q in store && r == Found(q.text, q.author)
    ensures r.Found? && Requested(author) ==> Lower(r.author) == Lower(author.value)
    ensures r.NotFound? <==>
      if Requested(author) then forall q :: q in store ==> !SameAuthor(q, author.value) else store == []
  {
    var candidates := Candidates(store, author);
    if |candidates| > 0 {
      var i :| 0 <= i < |candidates|;
      var chosen := candidates[i];
      r := Found(chosen.text, chosen.author);
    } else {
      r := NotFound;
    }
  }

  /** The filter keeps every record by the author as often as the store holds
      it, and no other record; so a record is a candidate exactly when the
      store holds it and it is by the author. */
  lemma {:induction false} ByAuthorCounts(store: seq<Quote>, author: string)
    ensures forall q ::
              multiset(ByAuthor(store, author))[q] == if SameAuthor(q, author) then multiset(store)[q] else 0
    ensures forall q :: q in ByAuthor(store, author) <==> q in store && SameAuthor(q, author)
    decreases |store|
  {
    if store != [] {
      ByAuthorCounts(store[1..], author);
      assert store == [store[0]] + store[1..];
    }
    forall q ensures q in ByAuthor(store, author) <==> q in store && SameAuthor(q, author) {
      assert q in ByAuthor(store, author) <==> multiset(ByAuthor(store, author))[q] > 0;
      assert q in store <==> multiset(store)[q] > 0;
    }
  }

  /** Filtering the concatenation of two stores concatenates the two filtered
      stores: the filter keeps store order. */
  lemma {:induction false} ByAuthorAppend(a: seq<Quote>, b: seq<Quote>, author: string)
    ensures ByAuthor(a + b, author) == ByAuthor(a, author) + ByAuthor(b, author)
    decreases |a|
  {
    if a == [] {
      assert a + b == b;
    } else {
      var head := if SameAuthor(a[0], author) then [a[0]] else [];
      var ab := a + b;
      assert ab[0] == a[0] && ab[1..] == a[1..] + b;
      assert ByAuthor(ab, author) == head + ByAuthor(a[1..] + b, author);
      assert ByAuthor(a, author) == head + ByAuthor(a[1..], author);
      ByAuthorAppend(a[1..], b, author);
    }
  }

  /** Two author requests that lower-case alike select the same records in the same order. */
  lemma {:induction false} ByAuthorCaseInsensitive(store: seq<Quote>, a: string, b: string)
    requires Lower(a) == Lower(b)
    ensures ByAuthor(store, a) == ByAuthor(store, b)
    decreases |store|
  {
    if store != [] {
      ByAuthorCaseInsensitive(store[1..], a, b);
    }
  }

  /** When every record is by the requested author, nothing is filtered out. */
  lemma {:induction false} ByAuthorKeepsAll(store: seq<Quote>, author: string)
    requires forall i :: 0 <= i < |store| ==> SameAuthor(store[i], author)
    ensures ByAuthor(store, author) == store
    decreases |store|
  {
    if store != [] {
      ByAuthorKeepsAll(store[1..], author);
      assert store == [store[0]] + store[1..];
    }
  }

  /** A two-record example: asking for "bruce lee" always answers with
      Bruce Lee's one quote, asking for "Plato" answers "no match". */
  method Example() {
    var store := [Quote("Be water.", "Bruce Lee", "wisdom"), Quote("Carpe diem.", "Horace", "wisdom")];
    assert Lower("Bruce Lee") == Lower("bruce lee");
    var r := RandomQuote(store, Some("bruce lee"));
    assert Candidates(store, Some("bruce lee")) == [store[0]];
    assert r == Found("Be water.", "Bruce Lee");
    var s := RandomQuote(store, Some("Plato"));
    assert s == NotFound;
  }
}
