/**
 * The newsletter routes: subscribe, unsubscribe and delete over a store of
 * subscriber records. Records keep insertion order, so "the record found by
 * e-mail" is the first one with that e-mail; a counter stands in for the
 * store's identifier generator.
 */
module Subscribers {
  import opened Wrappers

  datatype SubscriberStatus = Active | Unsubscribed

  datatype Subscriber = Subscriber(id: nat, email: string, status: SubscriberStatus)

  datatype Store = Store(records: seq<Subscriber>, nextId: nat)

  /** Identifiers and e-mails are unique, and every identifier was handed out by the counter. */
  predicate Valid(st: Store) {
    && (forall i, j :: 0 <= i < j < |st.records| ==> st.records[i].id != st.records[j].id)
    && (forall i, j :: 0 <= i < j < |st.records| ==> st.records[i].email != st.records[j].email)
    && (forall i :: 0 <= i < |st.records| ==> st.records[i].id < st.nextId)
  }

  /** The position of the first element satisfying `p`: a store lookup, which sees records in insertion order. */
  function FindFirst<T>(xs: seq<T>, p: T -> bool): (r: Option<nat>)
    ensures r.Some? ==> r.value < |xs| && p(xs[r.value])
    ensures r.Some? ==> forall i :: 0 <= i < r.value ==> !p(xs[i])
    ensures r.None? <==> forall i :: 0 <= i < |xs| ==> !p(xs[i])
    decreases |xs|
  {
    if xs == [] then None
    else if p(xs[0]) then Some(0)
    else
      var r := FindFirst(xs[1..], p);
      if r.Some? then Some(r.value + 1) else None
  }

  /** The position of the first record with e-mail `email` (`findOne({ email })`). */
  function FindEmail(rs: seq<Subscriber>, email: string): (r: Option<nat>)
    ensures r.Some? ==> r.value < |rs| && rs[r.value].email == email
    ensures r.Some? ==> forall i :: 0 <= i < r.value ==> rs[i].email != email
    ensures r.None? <==> forall i :: 0 <= i < |rs| ==> rs[i].email != email
  {
    FindFirst(rs, (s: Subscriber) => s.email == email)
  }

  /** The position of the record with identifier `id` (`findByIdAndDelete(id)`). */
  function FindId(rs: seq<Subscriber>, id: nat): (r: Option<nat>)
    ensures r.Some? ==> r.value < |rs| && rs[r.value].id == id
    ensures r.Some? ==> forall i :: 0 <= i < r.value ==> rs[i].id != id
    ensures r.None? <==> forall i :: 0 <= i < |rs| ==> rs[i].id != id
    ensures r.Some? <==> exists i :: 0 <= i < |rs| && rs[i].id == id
  {
    FindFirst(rs, (s: Subscriber) => s.id == id)
  }

  datatype SubscribeError = EmailRequired | AlreadySubscribed

  /**
   * `POST /subscribe`. A missing or empty e-mail is refused; so is an e-mail
   * that has any record, whatever its status. Otherwise a new active record
   * is appended. On failure the store is not written.
   */
  function Subscribe(st: Store, email: Option<string>): (r: Result<Store, SubscribeError>)
    ensures r.Failure? && r.error == EmailRequired <==> email.None? || email.value == ""
    ensures r.Failure? && r.error == AlreadySubscribed <==>
      email.Some? && email.value != "" && exists i :: 0 <= i < |st.records| && st.records[i].email == email.value
    ensures r.Success? ==>
      r.value == Store(st.records + [Subscriber(st.nextId, email.value, Active)], st.nextId + 1)
  {
    if email.None? || email.value == "" then Failure(EmailRequired)
    else if FindEmail(st.records, email.value).Some? then Failure(AlreadySubscribed)
    else Success(Store(st.records + [Subscriber(st.nextId, email.value, Active)], st.nextId + 1))
  }

  datatype NotFound = NotFound

  /**
   * `POST /unsubscribe`: the record with that e-mail is marked unsubscribed
   * and kept; an unknown e-mail is reported and nothing is written.
   */
  function Unsubscribe(st: Store, email: string): (r: Result<Store, NotFound>)
    ensures r.Failure? <==> forall i :: 0 <= i < |st.records| ==> st.records[i].email != email
    ensures r.Success? ==> r.value.nextId == st.nextId && |r.value.records| == |st.records|
    ensures r.Success? ==> forall i :: 0 <= i < |st.records| ==>
      r.value.records[i] == if st.records[i].email == email && (forall j :: 0 <= j < i ==> st.records[j].email != email)
        then st.records[i].(status := Unsubscribed) else st.records[i]
  {
    var k := FindEmail(st.records, email);
    if k.None? then Failure(NotFound)
    else Success(st.(records := st.records[k.value := st.records[k.value].(status := Unsubscribed)]))
  }

  /** `DELETE /subscribers/:id`: the record with that identifier is removed; an unknown identifier is reported. */
  function Delete(st: Store, id: nat): (r: Result<Store, NotFound>)
    ensures r.Failure? <==> forall i :: 0 <= i < |st.records| ==> st.records[i].id != id
    ensures r.Success? ==>
      exists k :: 0 <= k < |st.records| && st.records[k].id == id && r.value == st.(records := st.records[..k] + st.records[k + 1..])
  {
    var k := FindId(st.records, id);
    if k.None? then Failure(NotFound)
    else Success(st.(records := st.records[..k.value] + st.records[k.value + 1..]))
  }

  /** Subscribing keeps the store valid. */
  lemma SubscribeValid(st: Store, email: Option<string>)
    requires Valid(st) && Subscribe(st, email).Success?
    ensures Valid(Subscribe(st, email).value)
  {
  }

  /** Unsubscribing keeps the store valid. */
  lemma UnsubscribeValid(st: Store, email: string)
    requires Valid(st) && Unsubscribe(st, email).Success?
    ensures Valid(Unsubscribe(st, email).value)
  {
  }

  /** Where the record now at position `i` stood before the record at `k` was removed. */
  function Before(i: nat, k: nat): nat {
    if i < k then i else i + 1
  }

  lemma RemovedAt(rs: seq<Subscriber>, k: nat)
    requires k < |rs|
    ensures var rs' := rs[..k] + rs[k + 1..];
      |rs'| == |rs| - 1 && forall i :: 0 <= i < |rs'| ==> rs'[i] == rs[Before(i, k)]
  {
  }

  /** Deleting keeps the store valid, and the identifier is gone afterwards. */
  lemma DeleteValid(st: Store, id: nat)
    requires Valid(st) && Delete(st, id).Success?
    ensures Valid(Delete(st, id).value)
    ensures forall i :: 0 <= i < |Delete(st, id).value.records| ==> Delete(st, id).value.records[i].id != id
  {
    var k := FindId(st.records, id).value;
    var rs := st.records;
    assert Delete(st, id).value == st.(records := rs[..k] + rs[k + 1..]);
    RemovedDistinct(rs, k, st.nextId);
  }

  /** Removing one record keeps identifiers and e-mails distinct and bounded, and drops that record's identifier. */
  lemma RemovedDistinct(rs: seq<Subscriber>, k: nat, next: nat)
    requires k < |rs|
    requires Valid(Store(rs, next))
    ensures var rs' := rs[..k] + rs[k + 1..];
      && Valid(Store(rs', next))
      && forall i :: 0 <= i < |rs'| ==> rs'[i].id != rs[k].id
  {
    var rs' := rs[..k] + rs[k + 1..];
    RemovedAt(rs, k);
    forall i, j | 0 <= i < j < |rs'| ensures rs'[i].id != rs'[j].id && rs'[i].email != rs'[j].email {
      assert Before(i, k) < Before(j, k);
    }
    forall i | 0 <= i < |rs'| ensures rs'[i].id != rs[k].id {
      assert Before(i, k) != k;
    }
  }

  /** The store seen as the map from e-mail to status that the routes maintain. */
  function View(rs: seq<Subscriber>): map<string, SubscriberStatus>
    decreases |rs|
  {
    if rs == [] then map[] else View(rs[..|rs| - 1])[rs[|rs| - 1].email := rs[|rs| - 1].status]
  }

  /** The map holds exactly the e-mails of the records. */
  lemma {:induction false} ViewDomain(rs: seq<Subscriber>, e: string)
    ensures e in View(rs) <==> exists i :: 0 <= i < |rs| && rs[i].email == e
    decreases |rs|
  {
    if rs != [] {
      var init := rs[..|rs| - 1];
      ViewDomain(init, e);
      if e in View(init) {
        var i :| 0 <= i < |init| && init[i].email == e;
        assert rs[i].email == e;
      }
      if exists i :: 0 <= i < |rs| && rs[i].email == e {
        var i :| 0 <= i < |rs| && rs[i].email == e;
        if i < |rs| - 1 {
          assert init[i].email == e;
        }
      }
    }
  }

  /** With unique e-mails, the map gives each record's status. */
  lemma {:induction false} ViewValue(rs: seq<Subscriber>, i: nat)
    requires i < |rs|
    requires forall a, b :: 0 <= a < b < |rs| ==> rs[a].email != rs[b].email
    ensures rs[i].email in View(rs) && View(rs)[rs[i].email] == rs[i].status
    decreases |rs|
  {
    if i < |rs| - 1 {
      var init := rs[..|rs| - 1];
      assert init[i] == rs[i];
      ViewValue(init, i);
    }
  }

  lemma ViewKeys(rs: seq<Subscriber>, m: map<string, SubscriberStatus>)
    requires forall e :: e in m <==> exists i :: 0 <= i < |rs| && rs[i].email == e
    ensures forall e :: e in View(rs) <==> e in m
  {
    forall e ensures e in View(rs) <==> e in m {
      ViewDomain(rs, e);
    }
  }

  lemma ViewValues(rs: seq<Subscriber>, m: map<string, SubscriberStatus>)
    requires forall a, b :: 0 <= a < b < |rs| ==> rs[a].email != rs[b].email
    requires forall e :: e in m ==> exists i :: 0 <= i < |rs| && rs[i].email == e
    requires forall i :: 0 <= i < |rs| ==> rs[i].email in m && m[rs[i].email] == rs[i].status
    ensures forall e :: e in m ==> e in View(rs) && View(rs)[e] == m[e]
  {
    forall e | e in m ensures e in View(rs) && View(rs)[e] == m[e] {
      var i :| 0 <= i < |rs| && rs[i].email == e;
      ViewValue(rs, i);
    }
  }

  /** Two record lists with unique e-mails and the same e-mail/status pairs have the same view. */
  lemma ViewFromRecords(rs: seq<Subscriber>, m: map<string, SubscriberStatus>)
    requires forall a, b :: 0 <= a < b < |rs| ==> rs[a].email != rs[b].email
    requires forall e :: e in m <==> exists i :: 0 <= i < |rs| && rs[i].email == e
    requires forall i :: 0 <= i < |rs| ==> rs[i].email in m && m[rs[i].email] == rs[i].status
    ensures View(rs) == m
  {
    ViewKeys(rs, m);
    ViewValues(rs, m);
    SameMap(View(rs), m);
  }

  lemma SameMap<K, V>(a: map<K, V>, b: map<K, V>)
    requires forall k :: k in a <==> k in b
    requires forall k :: k in b ==> k in a && a[k] == b[k]
    ensures a == b
  {
  }

  /** A successful subscription adds the e-mail to the view as active. */
  lemma SubscribeView(st: Store, email: Option<string>)
    requires Subscribe(st, email).Success?
    ensures email.value !in View(st.records)
    ensures View(Subscribe(st, email).value.records) == View(st.records)[email.value := Active]
  {
    ViewDomain(st.records, email.value);
    var rs' := Subscribe(st, email).value.records;
    assert rs'[..|rs'| - 1] == st.records;
  }

  /** A successful unsubscription marks the e-mail unsubscribed in the view and changes nothing else. */
  lemma UnsubscribeView(st: Store, email: string)
    requires Valid(st) && Unsubscribe(st, email).Success?
    ensures email in View(st.records)
    ensures View(Unsubscribe(st, email).value.records) == View(st.records)[email := Unsubscribed]
  {
    var rs := st.records;
    var rs' := Unsubscribe(st, email).value.records;
    var k := FindEmail(rs, email).value;
    ViewDomain(rs, email);
    UnsubscribeValid(st, email);
    var m := View(rs)[email := Unsubscribed];
    forall e ensures e in m <==> exists i :: 0 <= i < |rs'| && rs'[i].email == e {
      ViewDomain(rs, e);
      if e in m && e != email {
        var i :| 0 <= i < |rs| && rs[i].email == e;
        assert rs'[i].email == e;
      }
      if e == email {
        assert rs'[k].email == e;
      }
    }
    forall i | 0 <= i < |rs'| ensures rs'[i].email in m && m[rs'[i].email] == rs'[i].status {
      if i != k {
        ViewValue(rs, i);
      }
    }
    ViewFromRecords(rs', m);
  }

  lemma RemovedKeys(rs: seq<Subscriber>, k: nat)
    requires k < |rs|
    requires forall a, b :: 0 <= a < b < |rs| ==> rs[a].email != rs[b].email
    ensures var rs' := rs[..k] + rs[k + 1..];
      forall e :: e in View(rs) - {rs[k].email} <==> exists i :: 0 <= i < |rs'| && rs'[i].email == e
  {
    var rs' := rs[..k] + rs[k + 1..];
    RemovedAt(rs, k);
    forall e ensures e in View(rs) - {rs[k].email} <==> exists i :: 0 <= i < |rs'| && rs'[i].email == e {
      ViewDomain(rs, e);
      if e in View(rs) && e != rs[k].email {
        var i :| 0 <= i < |rs| && rs[i].email == e;
        var i' := if i < k then i else i - 1;
        assert Before(i', k) == i;
      }
      if exists i :: 0 <= i < |rs'| && rs'[i].email == e {
        var i :| 0 <= i < |rs'| && rs'[i].email == e;
        assert rs[Before(i, k)].email == e;
      }
    }
  }

  lemma RemovedValues(rs: seq<Subscriber>, k: nat)
    requires k < |rs|
    requires forall a, b :: 0 <= a < b < |rs| ==> rs[a].email != rs[b].email
    ensures var rs' := rs[..k] + rs[k + 1..]; var m := View(rs) - {rs[k].email};
      forall i :: 0 <= i < |rs'| ==> rs'[i].email in m && m[rs'[i].email] == rs'[i].status
  {
    var rs' := rs[..k] + rs[k + 1..];
    RemovedAt(rs, k);
    forall i | 0 <= i < |rs'| ensures rs'[i].email != rs[k].email {
      assert Before(i, k) != k;
    }
    forall i | 0 <= i < |rs'| ensures rs'[i].email in View(rs) && View(rs)[rs'[i].email] == rs'[i].status {
      ViewValue(rs, Before(i, k));
    }
  }

  /** A successful delete removes that record's e-mail from the view and changes nothing else. */
  lemma DeleteView(st: Store, id: nat)
    requires Valid(st) && Delete(st, id).Success?
    ensures var k := FindId(st.records, id).value;
      View(Delete(st, id).value.records) == View(st.records) - {st.records[k].email}
  {
    var rs := st.records;
    var k := FindId(rs, id).value;
    var rs' := rs[..k] + rs[k + 1..];
    assert Delete(st, id).value.records == rs';
    DeleteValid(st, id);
    assert forall a, b :: 0 <= a < b < |rs'| ==> rs'[a].email != rs'[b].email;
    RemovedKeys(rs, k);
    RemovedValues(rs, k);
    ViewFromRecords(rs', View(rs) - {rs[k].email});
  }
}
