/** The in-memory signature list of the page: the `signatures` array, newest
    first, and the `signatureCount` counter kept beside it. */
module SignatureStore {
  import opened Seqs

  /** A date as the page shows it (`toLocaleDateString('es-ES')`); the clock
      is outside the model, so dates are supplied by the caller. */
  type Date = string

  /** One signer. The demonstration records have no gamertag or e-mail
      property at all, which `None` stands for; submitted records always carry
      both, possibly as empty strings. */
  datatype Signature = Signature(
    name: string,
    country: string,
    gamertag: Option<string>,
    email: Option<string>,
    comment: string,
    date: Date)

  /** The list and the separately kept counter. */
  datatype Store = Store(records: seq<Signature>, count: int)

  /** The counter agrees with the list. */
  predicate Consistent(s: Store) {
    s.count == |s.records|
  }

  /** How many signatures the signature list on the page shows at most. */
  const MaxDisplayed := 10

  /** The three demonstration records, dated today, yesterday and the day
      before, newest first; none of them has a gamertag or an e-mail. */
  function InitialSignatures(today: Date, yesterday: Date, twoDaysAgo: Date): (r: seq<Signature>)
    ensures |r| == 3
    ensures r[0].date == today && r[1].date == yesterday && r[2].date == twoDaysAgo
    ensures forall x :: x in r ==> x.gamertag == None && x.email == None
  {
    [ Signature("Carlos Rodriguez", "Colombia", None, None,
        "Llevamos años sufriendo con este servidor lleno de lag y hackers", today),
      Signature("Maria González", "México", None, None,
        "Es hora de que cierren este servidor problemático", yesterday),
      Signature("Alex Fernández", "España", None, None,
        "The Hive es muchísimo mejor que Lifeboat", twoDaysAgo) ]
  }

  /** The seeding in `initializeApp`: the list becomes a copy of the given
      records and the counter is set from its length, so the two agree. */
  function Seed(initial: seq<Signature>): (s: Store)
    ensures Consistent(s)
    ensures s.records == initial
  {
    Store(initial, |initial|)
  }

  /** `addSignature`: the new record goes in front (`unshift`), every earlier
      record moves up one place, and the counter grows by exactly one, so a
      consistent store stays consistent. */
  function AddSignature(s: Store, x: Signature): (r: Store)
    ensures |r.records| == |s.records| + 1
    ensures r.records[0] == x
    ensures forall i :: 0 <= i < |s.records| ==> r.records[i + 1] == s.records[i]
    ensures r.count == s.count + 1
    ensures Consistent(s) ==> Consistent(r)
  {
    Store([x] + s.records, s.count + 1)
  }

  /** The records `displaySignatures` renders (`signatures.slice(0, 10)`): the
      first `min(10, n)` of the list, newest first, in list order. */
  function Displayed(s: Store): (r: seq<Signature>)
    ensures |r| == Min(MaxDisplayed, |s.records|)
    ensures forall i :: 0 <= i < |r| ==> r[i] == s.records[i]
  {
    s.records[..Min(MaxDisplayed, |s.records|)]
  }

  /** After an addition the new record heads the displayed list and the rest
      of it is what was displayed before, minus the oldest entry once the list
      is full. */
  lemma DisplayedAfterAdd(s: Store, x: Signature)
    ensures var before := Displayed(s);
      Displayed(AddSignature(s, x)) == [x] + before[..Min(MaxDisplayed - 1, |before|)]
  {
    var before := Displayed(s);
    var after := Displayed(AddSignature(s, x));
    var expected := [x] + before[..Min(MaxDisplayed - 1, |before|)];
    assert |after| == |expected|;
    forall i | 0 <= i < |after|
      ensures after[i] == expected[i]
    {
      if i > 0 {
        assert after[i] == s.records[i - 1];
      }
    }
  }

  /** A run of `addSignature` calls, in order. */
  function AddAll(s: Store, xs: seq<Signature>): Store
    decreases |xs|
  {
    if xs == [] then s else AddAll(AddSignature(s, xs[0]), xs[1..])
  }

  /** After any run of additions the list is the added records, latest
      first, in front of the old list, which keeps its order. */
  lemma {:induction false} AddAllRecords(s: Store, xs: seq<Signature>)
    ensures AddAll(s, xs).records == Reversed(xs) + s.records
    decreases |xs|
  {
    if xs != [] {
      var s' := AddSignature(s, xs[0]);
      assert s'.records == [xs[0]] + s.records;
      assert AddAll(s, xs) == AddAll(s', xs[1..]);
      AddAllRecords(s', xs[1..]);
      var rest := Reversed(xs[1..]);
      assert Reversed(xs) == rest + [xs[0]];
      assert rest + ([xs[0]] + s.records) == (rest + [xs[0]]) + s.records;
    }
  }

  /** After any run of additions the counter has grown by the number of
      calls, and a consistent store is still consistent. */
  lemma {:induction false} AddAllCount(s: Store, xs: seq<Signature>)
    ensures AddAll(s, xs).count == s.count + |xs|
    ensures Consistent(s) ==> Consistent(AddAll(s, xs))
    decreases |xs|
  {
    AddAllRecords(s, xs);
    if xs != [] {
      AddAllCount(AddSignature(s, xs[0]), xs[1..]);
    }
  }

  /** Counting from the seeding, the counter equals the number of records
      seeded plus the number of additions since. */
  lemma SeedThenAdd(initial: seq<Signature>, xs: seq<Signature>)
    ensures AddAll(Seed(initial), xs).count == |initial| + |xs|
    ensures Displayed(AddAll(Seed(initial), xs)) == (Reversed(xs) + initial)[..Min(MaxDisplayed, |xs| + |initial|)]
  {
    AddAllRecords(Seed(initial), xs);
    AddAllCount(Seed(initial), xs);
  }
}
