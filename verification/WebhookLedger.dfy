/** The webhook ledger: what a stream of processor events does to transactions and balances. */
module WebhookLedger {
  import opened Arithmetic
  import opened Text

  datatype Processor = Polar | Stripe
  datatype Status = Pending | Completed | Failed | Reversed
  datatype Book = Business | Consultant

  /** A transaction row; its id is its place in the book, amounts are exact cents. */
  datatype Tx = Tx(owner: nat, amount: int, status: Status, transferId: Option<nat>)

  /** The payload as far as the ledger reads it; None is a missing id in the metadata. */
  datatype Body =
    | TopUpPaid(tx: Option<nat>)
    | InvoicePaid(tx: Option<nat>, invoice: Option<nat>)
    | PaymentFailed(tx: Option<nat>)
    | RefundCreated(tx: Option<nat>)
    | OtherPolar
    | TransferFailed(transfer: Option<nat>)
    | OtherStripe

  /** How a call may end: it returns, or it throws before the handler's first write, between the
      status write and the balance write (the two are not in one transaction), or after both. */
  datatype Fault = NoFault | BeforeWrites | BetweenWrites | AfterWrites

  datatype Delivery = Delivery(id: nat, body: Body, fault: Fault)
  datatype Key = Key(processor: Processor, id: nat)
  datatype EventRow = Processed | FailedOnce

  datatype Ledger = Ledger(
    seen: map<Key, EventRow>,
    business: seq<Tx>,
    consultant: seq<Tx>,
    businessBalance: map<nat, int>,
    consultantBalance: map<nat, int>
  )

  datatype Ref = Ref(book: Book, index: nat)
  datatype Action = Pay | Decline | Refund | Return

  function KeyOf(d: Delivery): Key {
    Key(if d.body.TransferFailed? || d.body.OtherStripe? then Stripe else Polar, d.id)
  }

  function Rows(l: Ledger, book: Book): seq<Tx> {
    if book == Business then l.business else l.consultant
  }

  function Balances(l: Ledger, book: Book): map<nat, int> {
    if book == Business then l.businessBalance else l.consultantBalance
  }

  function FindTransfer(txs: seq<Tx>, transfer: nat): (i: nat)
    ensures i <= |txs|
    ensures forall k :: 0 <= k < i ==> txs[k].transferId != Some(transfer)
    ensures i < |txs| ==> txs[i].transferId == Some(transfer)
  {
    if txs == [] then 0
    else if txs[0].transferId == Some(transfer) then 0
    else
      var i := 1 + FindTransfer(txs[1..], transfer);
      i
  }

  function ById(l: Ledger, tx: Option<nat>): Option<Ref> {
    if tx.Some? && tx.value < |l.business| then Some(Ref(Business, tx.value)) else None
  }

  function ByTransfer(l: Ledger, transfer: nat): Option<Ref> {
    var i, j := FindTransfer(l.business, transfer), FindTransfer(l.consultant, transfer);
    if i < |l.business| then Some(Ref(Business, i))
    else if j < |l.consultant| then Some(Ref(Consultant, j))
    else None
  }

  /** The transaction an event addresses, if it addresses one that exists. */
  function Target(l: Ledger, body: Body): Option<Ref> {
    match body
    case TopUpPaid(tx) => ById(l, tx)
    case PaymentFailed(tx) => ById(l, tx)
    case RefundCreated(tx) => ById(l, tx)
    case TransferFailed(Some(transfer)) => ByTransfer(l, transfer)
    case _ => None
  }

  function ActionOf(body: Body): Action {
    match body
    case PaymentFailed(_) => Decline
    case RefundCreated(_) => Refund
    case TransferFailed(_) => Return
    case _ => Pay
  }

  /** The transaction's own status machine: the next status, and whether the amount is credited. */
  function Advance(status: Status, action: Action, fault: Fault): (Status, bool) {
    var credited := fault != BetweenWrites;
    if fault == BeforeWrites then (status, false)
    else match action
      case Pay => if status == Pending then (Completed, credited) else (status, false)
      case Decline => if status == Pending then (Failed, false) else (status, false)
      case Refund => (Reversed, false)
      case Return => if status == Reversed then (status, false) else (Reversed, credited)
  }

  function SetStatus(l: Ledger, r: Ref, status: Status): Ledger
    requires r.index < |Rows(l, r.book)|
  {
    if r.book == Business then l.(business := l.business[r.index := l.business[r.index].(status := status)])
    else l.(consultant := l.consultant[r.index := l.consultant[r.index].(status := status)])
  }

  /** The owner's balance grows by the amount, when the owner's profile exists. */
  function Credit(l: Ledger, r: Ref): Ledger
    requires r.index < |Rows(l, r.book)|
  {
    var tx := Rows(l, r.book)[r.index];
    var balances := Balances(l, r.book);
    if tx.owner !in balances then l
    else if r.book == Business then l.(businessBalance := balances[tx.owner := balances[tx.owner] + tx.amount])
    else l.(consultantBalance := balances[tx.owner := balances[tx.owner] + tx.amount])
  }

  function Handle(l: Ledger, d: Delivery): Ledger {
    var target := Target(l, d.body);
    if target.None? then l
    else
      var r := target.value;
      var (status, credited) := Advance(Rows(l, r.book)[r.index].status, ActionOf(d.body), d.fault);
      var moved := SetStatus(l, r, status);
      if credited then Credit(moved, r) else moved
  }

  /** A webhook call: a known (processor, event id) is skipped, whatever became of it; otherwise
      the event row is stored, the handler runs, and the row records how it ended. */
  function Process(l: Ledger, d: Delivery): Ledger {
    if KeyOf(d) in l.seen then l
    else
      var handled := Handle(l, d);
      handled.(seen := handled.seen[KeyOf(d) := if d.fault == NoFault then Processed else FailedOnce])
  }

  function ProcessAll(l: Ledger, ds: seq<Delivery>): Ledger {
    if ds == [] then l else Process(ProcessAll(l, ds[..|ds| - 1]), ds[|ds| - 1])
  }

  // ---- Redelivery ---------------------------------------------------------------------

  function Keys(ds: seq<Delivery>): set<Key> {
    set i | 0 <= i < |ds| :: KeyOf(ds[i])
  }

  /** The first delivery of each key not in `known`, in stream order. */
  function FirstOnly(ds: seq<Delivery>, known: set<Key>): seq<Delivery> {
    if ds == [] then []
    else
      var front, last := ds[..|ds| - 1], ds[|ds| - 1];
      if KeyOf(last) in known + Keys(front) then FirstOnly(front, known) else FirstOnly(front, known) + [last]
  }

  lemma KeysSnoc(ds: seq<Delivery>)
    requires ds != []
    ensures Keys(ds) == Keys(ds[..|ds| - 1]) + {KeyOf(ds[|ds| - 1])}
  {
    var front := ds[..|ds| - 1];
    forall k | k in Keys(front) ensures k in Keys(ds) {
      var i :| 0 <= i < |front| && KeyOf(front[i]) == k;
      assert ds[i] == front[i];
    }
    assert KeyOf(ds[|ds| - 1]) in Keys(ds);
    forall k | k in Keys(ds) ensures k in Keys(front) + {KeyOf(ds[|ds| - 1])} {
      var i :| 0 <= i < |ds| && KeyOf(ds[i]) == k;
      assert i < |front| ==> front[i] == ds[i];
    }
  }

  lemma {:induction false} SeenKeys(l: Ledger, ds: seq<Delivery>)
    ensures ProcessAll(l, ds).seen.Keys == l.seen.Keys + Keys(ds)
  {
    if ds != [] {
      var front, last := ds[..|ds| - 1], ds[|ds| - 1];
      SeenKeys(l, front);
      KeysSnoc(ds);
      ProcessSees(ProcessAll(l, front), last);
    }
  }

  lemma HandleKeepsSeen(l: Ledger, d: Delivery)
    ensures Handle(l, d).seen == l.seen
  {
  }

  lemma ProcessSees(l: Ledger, d: Delivery)
    ensures Process(l, d).seen.Keys == l.seen.Keys + {KeyOf(d)}
  {
    hide Handle;
    HandleKeepsSeen(l, d);
  }

  /** Redelivered events change nothing, even when the first delivery failed: the stream acts
      exactly like its first occurrences. */
  lemma {:induction false} RedeliveryIsSkipped(l: Ledger, ds: seq<Delivery>)
    ensures ProcessAll(l, ds) == ProcessAll(l, FirstOnly(ds, l.seen.Keys))
  {
    if ds != [] {
      var front, last := ds[..|ds| - 1], ds[|ds| - 1];
      RedeliveryIsSkipped(l, front);
      SeenKeys(l, front);
      var firsts := FirstOnly(front, l.seen.Keys);
      assert (firsts + [last])[..|firsts|] == firsts;
    }
  }

  // ---- Closed form -----------------------------------------------------------------------

  /** The actions a stream takes on one transaction: first deliveries only, in order. */
  function ActionsOn(l: Ledger, ds: seq<Delivery>, r: Ref): seq<(Action, Fault)> {
    if ds == [] then []
    else
      var front, last := ds[..|ds| - 1], ds[|ds| - 1];
      var rest := ActionsOn(l, front, r);
      if KeyOf(last) in l.seen.Keys + Keys(front) || Target(l, last.body) != Some(r) then rest
      else rest + [(ActionOf(last.body), last.fault)]
  }

  function StatusAfter(status: Status, actions: seq<(Action, Fault)>): Status {
    if actions == [] then status
    else
      var last := actions[|actions| - 1];
      Advance(StatusAfter(status, actions[..|actions| - 1]), last.0, last.1).0
  }

  function CreditsOf(status: Status, actions: seq<(Action, Fault)>): nat {
    if actions == [] then 0
    else
      var front, last := actions[..|actions| - 1], actions[|actions| - 1];
      CreditsOf(status, front) + if Advance(StatusAfter(status, front), last.0, last.1).1 then 1 else 0
  }

  /** What the stream owes `owner`: over all transactions, amount times credits. */
  function Owed(l: Ledger, ds: seq<Delivery>, book: Book, owner: nat, n: nat): int
    requires n <= |Rows(l, book)|
  {
    if n == 0 then 0
    else
      var tx := Rows(l, book)[n - 1];
      Owed(l, ds, book, owner, n - 1) + Share(tx, owner, CreditsOf(tx.status, ActionsOn(l, ds, Ref(book, n - 1))))
  }

  function Share(tx: Tx, owner: nat, credits: nat): int {
    if tx.owner == owner then tx.amount * credits else 0
  }

  /** The stream's effect, transaction by transaction and account by account. */
  ghost predicate ClosedForm(l: Ledger, ds: seq<Delivery>, l': Ledger, book: Book) {
    var before, after := Rows(l, book), Rows(l', book);
    && |after| == |before|
    && (forall i :: 0 <= i < |before| ==>
          after[i] == before[i].(status := StatusAfter(before[i].status, ActionsOn(l, ds, Ref(book, i)))))
    && Balances(l', book).Keys == Balances(l, book).Keys
    && (forall a :: a in Balances(l, book) ==>
          Balances(l', book)[a] == Balances(l, book)[a] + Owed(l, ds, book, a, |before|))
  }

  ghost predicate SameShape(l: Ledger, l': Ledger, book: Book) {
    var before, after := Rows(l, book), Rows(l', book);
    && |after| == |before|
    && (forall i :: 0 <= i < |before| ==>
          after[i].owner == before[i].owner && after[i].amount == before[i].amount && after[i].transferId == before[i].transferId)
    && Balances(l', book).Keys == Balances(l, book).Keys
  }

  lemma {:induction false} SameTransfer(txs: seq<Tx>, txs': seq<Tx>, transfer: nat)
    requires |txs'| == |txs| && forall i :: 0 <= i < |txs| ==> txs'[i].transferId == txs[i].transferId
    ensures FindTransfer(txs, transfer) == FindTransfer(txs', transfer)
  {
    if txs != [] {
      SameTransfer(txs[1..], txs'[1..], transfer);
    }
  }

  /** Events find their transaction by columns no handler writes. */
  lemma SameTarget(l: Ledger, l': Ledger, body: Body)
    requires SameShape(l, l', Business) && SameShape(l, l', Consultant)
    ensures Target(l, body) == Target(l', body)
  {
    if body.TransferFailed? && body.transfer.Some? {
      SameTransfer(l.business, l'.business, body.transfer.value);
      SameTransfer(l.consultant, l'.consultant, body.transfer.value);
    }
  }

  predicate IsFresh(l: Ledger, ds: seq<Delivery>)
    requires ds != []
  {
    KeyOf(ds[|ds| - 1]) !in l.seen.Keys + Keys(ds[..|ds| - 1])
  }

  /** The last delivery credits `r`, given what the earlier ones did to it. */
  predicate CreditsLast(l: Ledger, ds: seq<Delivery>, r: Ref)
    requires ds != [] && r.index < |Rows(l, r.book)|
  {
    var front, last := ds[..|ds| - 1], ds[|ds| - 1];
    && IsFresh(l, ds) && Target(l, last.body) == Some(r)
    && Advance(StatusAfter(Rows(l, r.book)[r.index].status, ActionsOn(l, front, r)), ActionOf(last.body), last.fault).1
  }

  lemma CreditsStep(l: Ledger, ds: seq<Delivery>, r: Ref, status: Status)
    requires ds != [] && r.index < |Rows(l, r.book)| && status == Rows(l, r.book)[r.index].status
    ensures CreditsOf(status, ActionsOn(l, ds, r))
         == CreditsOf(status, ActionsOn(l, ds[..|ds| - 1], r)) + Bit(CreditsLast(l, ds, r))
  {
    var front, last := ds[..|ds| - 1], ds[|ds| - 1];
    var before := ActionsOn(l, front, r);
    if IsFresh(l, ds) && Target(l, last.body) == Some(r) {
      var after := before + [(ActionOf(last.body), last.fault)];
      assert ActionsOn(l, ds, r) == after;
      assert after[..|after| - 1] == before;
    } else {
      assert ActionsOn(l, ds, r) == before;
    }
  }

  /** What the last delivery owes `owner` over the first n transactions. */
  function Gain(l: Ledger, ds: seq<Delivery>, book: Book, owner: nat, n: nat): int
    requires ds != [] && n <= |Rows(l, book)|
  {
    var target := Target(l, ds[|ds| - 1].body);
    if target.None? || target.value.book != book || target.value.index >= n then 0
    else Share(Rows(l, book)[target.value.index], owner, Bit(CreditsLast(l, ds, target.value)))
  }

  lemma ShareSplits(tx: Tx, owner: nat, c: nat, more: nat)
    ensures Share(tx, owner, c + more) == Share(tx, owner, c) + Share(tx, owner, more)
  {
    assert tx.amount * (c + more) == tx.amount * c + tx.amount * more;
  }

  /** The last delivery owes `owner` its transaction's amount, if it credits one of theirs. */
  lemma {:induction false} OwedStep(l: Ledger, ds: seq<Delivery>, book: Book, owner: nat, n: nat)
    requires ds != [] && n <= |Rows(l, book)|
    ensures Owed(l, ds, book, owner, n)
         == Owed(l, ds[..|ds| - 1], book, owner, n) + Gain(l, ds, book, owner, n)
  {
    hide Share, CreditsOf, ActionsOn;
    if n > 0 {
      OwedStep(l, ds, book, owner, n - 1);
      var r := Ref(book, n - 1);
      var tx := Rows(l, book)[n - 1];
      CreditsStep(l, ds, r, tx.status);
      ShareSplits(tx, owner, CreditsOf(tx.status, ActionsOn(l, ds[..|ds| - 1], r)), Bit(CreditsLast(l, ds, r)));
      GainStep(l, ds, book, owner, n);
    }
  }

  lemma GainStep(l: Ledger, ds: seq<Delivery>, book: Book, owner: nat, n: nat)
    requires ds != [] && 0 < n <= |Rows(l, book)|
    ensures Gain(l, ds, book, owner, n)
         == Gain(l, ds, book, owner, n - 1) + Share(Rows(l, book)[n - 1], owner, Bit(CreditsLast(l, ds, Ref(book, n - 1))))
  {
    assert !CreditsLast(l, ds, Ref(book, n - 1)) ==> Share(Rows(l, book)[n - 1], owner, 0) == 0;
  }

  lemma {:induction false} OwedNothing(l: Ledger, book: Book, owner: nat, n: nat)
    requires n <= |Rows(l, book)|
    ensures Owed(l, [], book, owner, n) == 0
  {
    if n > 0 {
      OwedNothing(l, book, owner, n - 1);
    }
  }

  lemma ClosedFormShape(l: Ledger, ds: seq<Delivery>, l': Ledger, book: Book)
    requires ClosedForm(l, ds, l', book)
    ensures SameShape(l, l', book)
  {
  }

  function RowAfter(l: Ledger, d: Delivery, r: Ref): Tx
    requires r.index < |Rows(l, r.book)|
  {
    var tx := Rows(l, r.book)[r.index];
    if Target(l, d.body) == Some(r) then tx.(status := Advance(tx.status, ActionOf(d.body), d.fault).0) else tx
  }

  function CreditTo(l: Ledger, d: Delivery, book: Book, owner: nat): int {
    var target := Target(l, d.body);
    if target.None? || target.value.book != book then 0
    else
      var tx := Rows(l, book)[target.value.index];
      Share(tx, owner, Bit(Advance(tx.status, ActionOf(d.body), d.fault).1))
  }

  lemma SetStatusEffect(l: Ledger, r: Ref, status: Status, book: Book)
    requires r.index < |Rows(l, r.book)|
    ensures var l' := SetStatus(l, r, status);
            && |Rows(l', book)| == |Rows(l, book)| && Balances(l', book) == Balances(l, book)
            && forall i :: 0 <= i < |Rows(l, book)| ==>
                 Rows(l', book)[i] == if r == Ref(book, i) then Rows(l, book)[i].(status := status) else Rows(l, book)[i]
  {
  }

  lemma CreditEffect(l: Ledger, r: Ref, book: Book)
    requires r.index < |Rows(l, r.book)|
    ensures var l' := Credit(l, r);
            && Rows(l', book) == Rows(l, book) && Balances(l', book).Keys == Balances(l, book).Keys
            && forall a :: a in Balances(l, book) ==>
                 Balances(l', book)[a] == Balances(l, book)[a] + if r.book == book then Share(Rows(l, book)[r.index], a, 1) else 0
  {
  }

  /** One handler run, row by row and account by account. */
  lemma HandleEffect(l: Ledger, d: Delivery, book: Book)
    ensures SameShape(l, Handle(l, d), book)
    ensures forall i :: 0 <= i < |Rows(l, book)| ==> Rows(Handle(l, d), book)[i] == RowAfter(l, d, Ref(book, i))
    ensures forall a :: a in Balances(l, book) ==>
              Balances(Handle(l, d), book)[a] == Balances(l, book)[a] + CreditTo(l, d, book, a)
  {
    hide SetStatus, Credit, Target, Rows, Balances;
    var target := Target(l, d.body);
    if target.Some? {
      var r := target.value;
      TargetExists(l, d.body);
      var (status, credited) := Advance(Rows(l, r.book)[r.index].status, ActionOf(d.body), d.fault);
      SetStatusEffect(l, r, status, book);
      SetStatusEffect(l, r, status, r.book);
      CreditEffect(SetStatus(l, r, status), r, book);
    }
  }

  lemma TargetExists(l: Ledger, body: Body)
    requires Target(l, body).Some?
    ensures Target(l, body).value.index < |Rows(l, Target(l, body).value.book)|
  {
  }

  lemma RowStep(l: Ledger, ds: seq<Delivery>, l1: Ledger, r: Ref)
    requires ds != [] && IsFresh(l, ds)
    requires SameShape(l, l1, Business) && SameShape(l, l1, Consultant)
    requires r.index < |Rows(l, r.book)| && ClosedForm(l, ds[..|ds| - 1], l1, r.book)
    ensures var tx := Rows(l, r.book)[r.index];
            RowAfter(l1, ds[|ds| - 1], r) == tx.(status := StatusAfter(tx.status, ActionsOn(l, ds, r)))
  {
    var front, last := ds[..|ds| - 1], ds[|ds| - 1];
    SameTarget(l, l1, last.body);
    var before := ActionsOn(l, front, r);
    if Target(l, last.body) == Some(r) {
      var after := before + [(ActionOf(last.body), last.fault)];
      assert ActionsOn(l, ds, r) == after;
      assert after[..|after| - 1] == before;
    }
  }

  lemma CreditStep(l: Ledger, ds: seq<Delivery>, l1: Ledger, book: Book, owner: nat)
    requires ds != [] && IsFresh(l, ds)
    requires SameShape(l, l1, Business) && SameShape(l, l1, Consultant)
    requires ClosedForm(l, ds[..|ds| - 1], l1, book)
    ensures CreditTo(l1, ds[|ds| - 1], book, owner) == Gain(l, ds, book, owner, |Rows(l, book)|)
  {
    SameTarget(l, l1, ds[|ds| - 1].body);
  }

  lemma {:induction false} OwedUnchanged(l: Ledger, ds: seq<Delivery>, book: Book, owner: nat)
    requires ds != [] && !IsFresh(l, ds)
    ensures Gain(l, ds, book, owner, |Rows(l, book)|) == 0
  {
  }

  lemma DuplicateStep(l: Ledger, ds: seq<Delivery>, l1: Ledger, book: Book)
    requires ds != [] && !IsFresh(l, ds) && ClosedForm(l, ds[..|ds| - 1], l1, book)
    ensures ClosedForm(l, ds, l1, book)
  {
    forall a | a in Balances(l, book)
      ensures Balances(l1, book)[a] == Balances(l, book)[a] + Owed(l, ds, book, a, |Rows(l, book)|)
    {
      OwedStep(l, ds, book, a, |Rows(l, book)|);
      OwedUnchanged(l, ds, book, a);
    }
  }

  lemma FreshStep(l: Ledger, ds: seq<Delivery>, l1: Ledger, book: Book)
    requires ds != [] && IsFresh(l, ds)
    requires SameShape(l, l1, Business) && SameShape(l, l1, Consultant)
    requires ClosedForm(l, ds[..|ds| - 1], l1, book)
    ensures ClosedForm(l, ds, Handle(l1, ds[|ds| - 1]), book)
  {
    hide StatusAfter, ActionsOn, Owed, CreditTo, RowAfter, Gain, Handle;
    var last := ds[|ds| - 1];
    HandleEffect(l1, last, book);
    forall i | 0 <= i < |Rows(l, book)|
      ensures Rows(Handle(l1, last), book)[i]
           == Rows(l, book)[i].(status := StatusAfter(Rows(l, book)[i].status, ActionsOn(l, ds, Ref(book, i))))
    {
      RowStep(l, ds, l1, Ref(book, i));
    }
    forall a | a in Balances(l, book)
      ensures Balances(Handle(l1, last), book)[a] == Balances(l, book)[a] + Owed(l, ds, book, a, |Rows(l, book)|)
    {
      CreditStep(l, ds, l1, book, a);
      OwedStep(l, ds, book, a, |Rows(l, book)|);
    }
  }

  /** Any stream: each status is its own transaction's actions run in order, and each balance is
      its start plus amount times credits over the owner's transactions. */
  lemma {:induction false} LedgerClosedForm(l: Ledger, ds: seq<Delivery>)
    ensures ClosedForm(l, ds, ProcessAll(l, ds), Business)
    ensures ClosedForm(l, ds, ProcessAll(l, ds), Consultant)
  {
    if ds == [] {
      ClosedFormEmpty(l, Business);
      ClosedFormEmpty(l, Consultant);
    } else {
      var front, last := ds[..|ds| - 1], ds[|ds| - 1];
      var l1 := ProcessAll(l, front);
      LedgerClosedForm(l, front);
      ClosedFormShape(l, front, l1, Business);
      ClosedFormShape(l, front, l1, Consultant);
      SeenKeys(l, front);
      if IsFresh(l, ds) {
        FreshStep(l, ds, l1, Business);
        FreshStep(l, ds, l1, Consultant);
        ClosedFormIgnoresSeen(l, ds, Handle(l1, last), Process(l1, last), Business);
        ClosedFormIgnoresSeen(l, ds, Handle(l1, last), Process(l1, last), Consultant);
      } else {
        DuplicateStep(l, ds, l1, Business);
        DuplicateStep(l, ds, l1, Consultant);
      }
    }
  }

  lemma ClosedFormEmpty(l: Ledger, book: Book)
    ensures ClosedForm(l, [], l, book)
  {
    forall a | a in Balances(l, book) ensures Owed(l, [], book, a, |Rows(l, book)|) == 0 {
      OwedNothing(l, book, a, |Rows(l, book)|);
    }
  }

  lemma ClosedFormIgnoresSeen(l: Ledger, ds: seq<Delivery>, l1: Ledger, l2: Ledger, book: Book)
    requires ClosedForm(l, ds, l1, book) && l2 == l1.(seen := l2.seen)
    ensures ClosedForm(l, ds, l2, book)
  {
  }

  // ---- Reordering ------------------------------------------------------------------------------

  /** Two streams treat every transaction alike: the same first deliveries, in the same order. */
  ghost predicate SamePerTransaction(l: Ledger, ds: seq<Delivery>, es: seq<Delivery>) {
    forall r: Ref :: ActionsOn(l, ds, r) == ActionsOn(l, es, r)
  }

  lemma {:induction false} SameOwed(l: Ledger, ds: seq<Delivery>, es: seq<Delivery>, book: Book, owner: nat, n: nat)
    requires SamePerTransaction(l, ds, es) && n <= |Rows(l, book)|
    ensures Owed(l, ds, book, owner, n) == Owed(l, es, book, owner, n)
  {
    if n > 0 {
      SameOwed(l, ds, es, book, owner, n - 1);
    }
  }

  lemma SameClosedForm(l: Ledger, ds: seq<Delivery>, es: seq<Delivery>, book: Book)
    requires SamePerTransaction(l, ds, es)
    ensures Rows(ProcessAll(l, ds), book) == Rows(ProcessAll(l, es), book)
    ensures Balances(ProcessAll(l, ds), book) == Balances(ProcessAll(l, es), book)
  {
    LedgerClosedForm(l, ds);
    LedgerClosedForm(l, es);
    var l1, l2 := ProcessAll(l, ds), ProcessAll(l, es);
    forall i | 0 <= i < |Rows(l, book)| ensures Rows(l1, book)[i] == Rows(l2, book)[i] {
      assert ActionsOn(l, ds, Ref(book, i)) == ActionsOn(l, es, Ref(book, i));
    }
    assert Rows(l1, book) == Rows(l2, book);
    forall a | a in Balances(l, book) ensures Balances(l1, book)[a] == Balances(l2, book)[a] {
      SameOwed(l, ds, es, book, a, |Rows(l, book)|);
    }
  }

  /** Any reordering that keeps each transaction's own events in order ends with the same
      statuses and balances. */
  lemma ReorderingIsHarmless(l: Ledger, ds: seq<Delivery>, es: seq<Delivery>)
    requires SamePerTransaction(l, ds, es)
    ensures ProcessAll(l, ds) == ProcessAll(l, es).(seen := ProcessAll(l, ds).seen)
  {
    SameClosedForm(l, ds, es, Business);
    SameClosedForm(l, ds, es, Consultant);
  }

  /** Two fresh events about different transactions commute exactly, event log included. */
  lemma DifferentTransactionsCommute(l: Ledger, d: Delivery, e: Delivery)
    requires KeyOf(d) != KeyOf(e)
    requires Target(l, d.body).None? || Target(l, d.body) != Target(l, e.body)
    ensures Process(Process(l, d), e) == Process(Process(l, e), d)
  {
    hide Process, ProcessAll, Target, Logged;
    ActionsSwap(l, d, e);
    ReorderingIsHarmless(l, [d, e], [e, d]);
    TwoProcessed(l, d, e);
    TwoProcessed(l, e, d);
    SeenAfter(l, d, e);
    SeenAfter(l, e, d);
    assert Logged(l, d) + Logged(l, e) == Logged(l, e) + Logged(l, d) by {
      assert Logged(l, d).Keys !! Logged(l, e).Keys by { LoggedKey(l, d); LoggedKey(l, e); }
    }
  }

  lemma {:induction false} ProcessAppend(l: Ledger, ds: seq<Delivery>, es: seq<Delivery>)
    ensures ProcessAll(l, ds + es) == ProcessAll(ProcessAll(l, ds), es)
  {
    hide Process;
    if es == [] {
      assert ds + es == ds;
    } else {
      ProcessAppend(l, ds, es[..|es| - 1]);
      assert (ds + es)[..|ds + es| - 1] == ds + es[..|es| - 1];
    }
  }

  /** Anywhere in a stream, two neighbouring events with different ids about different transactions
      may change places: the ledger and the event log end the same. */
  lemma NeighboursMaySwap(l: Ledger, before: seq<Delivery>, d: Delivery, e: Delivery, after: seq<Delivery>)
    requires KeyOf(d) != KeyOf(e)
    requires Target(l, d.body).None? || Target(l, d.body) != Target(l, e.body)
    ensures ProcessAll(l, before + [d, e] + after) == ProcessAll(l, before + [e, d] + after)
  {
    hide Process, ProcessAll, Target;
    var l1 := ProcessAll(l, before);
    LedgerClosedForm(l, before);
    ClosedFormShape(l, before, l1, Business);
    ClosedFormShape(l, before, l1, Consultant);
    SameTarget(l, l1, d.body);
    SameTarget(l, l1, e.body);
    DifferentTransactionsCommute(l1, d, e);
    TwoProcessed(l1, d, e);
    TwoProcessed(l1, e, d);
    ProcessAppend(l, before, [d, e]);
    ProcessAppend(l, before, [e, d]);
    ProcessAppend(l, before + [d, e], after);
    ProcessAppend(l, before + [e, d], after);
  }

  lemma LoggedKey(l: Ledger, d: Delivery)
    ensures Logged(l, d).Keys <= {KeyOf(d)}
  {
  }

  lemma ActionsSwap(l: Ledger, d: Delivery, e: Delivery)
    requires KeyOf(d) != KeyOf(e)
    requires Target(l, d.body).None? || Target(l, d.body) != Target(l, e.body)
    ensures SamePerTransaction(l, [d, e], [e, d])
  {
    hide Target, ActionsOn;
    TwoActions(l, d, e);
    TwoActions(l, e, d);
    forall r: Ref ensures ActionsOn(l, [d, e], r) == ActionsOn(l, [e, d], r) {
      assert ActionIfFresh(l, d, r) + ActionIfFresh(l, e, r) == ActionIfFresh(l, e, r) + ActionIfFresh(l, d, r);
    }
  }

  lemma TwoProcessed(l: Ledger, d: Delivery, e: Delivery)
    ensures ProcessAll(l, [d, e]) == Process(Process(l, d), e)
  {
    assert [d, e][..1] == [d] && [d][..0] == [];
    assert ProcessAll(l, [d]) == Process(l, d);
  }

  function ActionIfFresh(l: Ledger, d: Delivery, r: Ref): seq<(Action, Fault)> {
    if KeyOf(d) in l.seen || Target(l, d.body) != Some(r) then [] else [(ActionOf(d.body), d.fault)]
  }

  lemma TwoActions(l: Ledger, d: Delivery, e: Delivery)
    requires KeyOf(d) != KeyOf(e)
    ensures forall r :: ActionsOn(l, [d, e], r) == ActionIfFresh(l, d, r) + ActionIfFresh(l, e, r)
  {
    hide Target, ActionOf;
    assert [d, e][..1] == [d] && [d][..0] == [];
    assert Keys([]) == {} && Keys([d]) == {KeyOf(d)} by { KeysSnoc([d]); }
    forall r ensures ActionsOn(l, [d, e], r) == ActionIfFresh(l, d, r) + ActionIfFresh(l, e, r) {
      assert ActionsOn(l, [d], r) == ActionIfFresh(l, d, r);
    }
  }

  function Logged(l: Ledger, d: Delivery): map<Key, EventRow> {
    if KeyOf(d) in l.seen then map[] else map[KeyOf(d) := if d.fault == NoFault then Processed else FailedOnce]
  }

  lemma ProcessLogs(l: Ledger, d: Delivery)
    ensures Process(l, d).seen == l.seen + Logged(l, d)
  {
    hide Handle;
    HandleKeepsSeen(l, d);
  }

  lemma SeenAfter(l: Ledger, d: Delivery, e: Delivery)
    requires KeyOf(d) != KeyOf(e)
    ensures Process(Process(l, d), e).seen == l.seen + (Logged(l, d) + Logged(l, e))
  {
    hide Process;
    ProcessLogs(l, d);
    ProcessLogs(Process(l, d), e);
    assert Logged(Process(l, d), e) == Logged(l, e);
  }

  // ---- Order-keeping permutations ----------------------------------------------------------------

  ghost predicate DistinctKeys(ds: seq<Delivery>) {
    forall i, j :: 0 <= i < j < |ds| ==> KeyOf(ds[i]) != KeyOf(ds[j])
  }

  ghost predicate Precedes(ds: seq<Delivery>, d: Delivery, e: Delivery) {
    exists i, j :: 0 <= i < j < |ds| && ds[i] == d && ds[j] == e
  }

  predicate SameTransaction(l: Ledger, d: Delivery, e: Delivery) {
    Target(l, d.body).Some? && Target(l, d.body) == Target(l, e.body)
  }

  /** `es` delivers what `ds` delivers, the events of each transaction in the same order. */
  ghost predicate KeepsOrder(l: Ledger, ds: seq<Delivery>, es: seq<Delivery>) {
    && multiset(ds) == multiset(es)
    && forall i, j :: 0 <= i < j < |ds| && SameTransaction(l, ds[i], ds[j]) ==> Precedes(es, ds[i], ds[j])
  }

  lemma PermutedKeys(ds: seq<Delivery>, es: seq<Delivery>)
    requires multiset(ds) == multiset(es) && DistinctKeys(ds)
    ensures DistinctKeys(es)
  {
    forall i, j | 0 <= i < j < |es| ensures KeyOf(es[i]) != KeyOf(es[j]) {
      assert es[i] in multiset(ds) && es[j] in multiset(ds);
      var p :| 0 <= p < |ds| && ds[p] == es[i];
      var q :| 0 <= q < |ds| && ds[q] == es[j];
      if p == q {
        Twice(es, i, j);
        Once(ds, p);
        assert false;
      }
    }
  }

  lemma Twice(ds: seq<Delivery>, i: nat, j: nat)
    requires i < j < |ds| && ds[i] == ds[j]
    ensures multiset(ds)[ds[i]] >= 2
  {
    assert ds == ds[..i] + [ds[i]] + ds[i + 1..j] + [ds[j]] + ds[j + 1..];
  }

  lemma Once(ds: seq<Delivery>, p: nat)
    requires p < |ds| && DistinctKeys(ds)
    ensures multiset(ds)[ds[p]] == 1
  {
    assert ds == ds[..p] + [ds[p]] + ds[p + 1..];
    assert ds[p] !in ds[..p] && ds[p] !in ds[p + 1..];
  }

  /** An event may be delayed past any later events of other transactions. */
  lemma {:induction false} MayBeDelayed(l: Ledger, before: seq<Delivery>, d: Delivery, after: seq<Delivery>)
    requires forall x :: x in after ==> KeyOf(x) != KeyOf(d) && !SameTransaction(l, d, x)
    ensures ProcessAll(l, before + [d] + after) == ProcessAll(l, before + after + [d])
    decreases |after|
  {
    hide ProcessAll, KeyOf, Target;
    if after == [] {
      assert before + [d] + after == before + after + [d];
    } else {
      var x, rest := after[0], after[1..];
      NeighboursMaySwap(l, before, d, x, rest);
      MayBeDelayed(l, before + [x], d, rest);
      assert before + [d] + after == before + [d, x] + rest;
      assert before + [x, d] + rest == before + [x] + [d] + rest;
      assert before + [x] + rest + [d] == before + after + [d];
    }
  }

  lemma AfterTheLast(l: Ledger, ds: seq<Delivery>, es: seq<Delivery>, k: nat)
    requires ds != [] && DistinctKeys(ds) && DistinctKeys(es) && KeepsOrder(l, ds, es)
    requires k < |es| && es[k] == ds[|ds| - 1]
    ensures forall x :: x in es[k + 1..] ==> KeyOf(x) != KeyOf(es[k]) && !SameTransaction(l, es[k], x)
  {
    hide Target, KeyOf;
    var d := es[k];
    forall x | x in es[k + 1..] ensures KeyOf(x) != KeyOf(d) && !SameTransaction(l, d, x) {
      var j :| k < j < |es| && es[j] == x;
      assert x in multiset(ds);
      var i :| 0 <= i < |ds| && ds[i] == x;
    }
  }

  lemma Around(es: seq<Delivery>, k: nat)
    requires k < |es|
    ensures multiset(es) == multiset(es[..k] + es[k + 1..]) + multiset{es[k]}
  {
    assert es == es[..k] + [es[k]] + es[k + 1..];
  }

  lemma LastRemoved(ds: seq<Delivery>, es: seq<Delivery>, k: nat)
    requires ds != [] && multiset(ds) == multiset(es) && k < |es| && es[k] == ds[|ds| - 1]
    ensures multiset(ds[..|ds| - 1]) == multiset(es[..k] + es[k + 1..])
  {
    var n := |ds| - 1;
    Around(ds, n);
    Around(es, k);
    assert ds[..n] + ds[n + 1..] == ds[..n];
    assert multiset(ds[..n]) == multiset(ds) - multiset{es[k]};
    assert multiset(es[..k] + es[k + 1..]) == multiset(es) - multiset{es[k]};
  }

  lemma WithoutTheLast(l: Ledger, ds: seq<Delivery>, es: seq<Delivery>, k: nat)
    requires ds != [] && DistinctKeys(ds) && DistinctKeys(es) && KeepsOrder(l, ds, es)
    requires k < |es| && es[k] == ds[|ds| - 1]
    ensures DistinctKeys(ds[..|ds| - 1]) && KeepsOrder(l, ds[..|ds| - 1], es[..k] + es[k + 1..])
  {
    hide Target, KeyOf;
    var front, others := ds[..|ds| - 1], es[..k] + es[k + 1..];
    LastRemoved(ds, es, k);
    forall i, j | 0 <= i < j < |front| && SameTransaction(l, front[i], front[j]) ensures Precedes(others, front[i], front[j]) {
      var p, q :| 0 <= p < q < |es| && es[p] == ds[i] && es[q] == ds[j];
      var p', q' := if p < k then p else p - 1, if q < k then q else q - 1;
      assert others[p'] == es[p] && others[q'] == es[q] && p' < q';
    }
  }

  /** Any permutation of a stream with distinct event keys that keeps the order of the events of each
      transaction ends with the same ledger, event log included. */
  lemma {:induction false} PermutationIsHarmless(l: Ledger, ds: seq<Delivery>, es: seq<Delivery>)
    requires DistinctKeys(ds) && KeepsOrder(l, ds, es)
    ensures ProcessAll(l, ds) == ProcessAll(l, es)
    decreases |ds|
  {
    hide KeepsOrder, DistinctKeys, Process;
    KeepsOrderPermutes(l, ds, es);
    PermutedKeys(ds, es);
    if ds == [] {
      assert |es| == |multiset(es)| == 0;
    } else {
      var front, d := ds[..|ds| - 1], ds[|ds| - 1];
      assert d in multiset(es);
      var k :| 0 <= k < |es| && es[k] == d;
      AfterTheLast(l, ds, es, k);
      WithoutTheLast(l, ds, es, k);
      MayBeDelayed(l, es[..k], d, es[k + 1..]);
      assert es == es[..k] + [d] + es[k + 1..];
      var others := es[..k] + es[k + 1..];
      PermutationIsHarmless(l, front, others);
      assert (others + [d])[..|others|] == others;
    }
  }

  lemma KeepsOrderPermutes(l: Ledger, ds: seq<Delivery>, es: seq<Delivery>)
    requires KeepsOrder(l, ds, es)
    ensures multiset(ds) == multiset(es)
  {
  }

  // ---- Credits per transaction -------------------------------------------------------------------

  lemma {:induction false} CreditBound(status: Status, actions: seq<(Action, Fault)>)
    ensures CreditsOf(status, actions) <= 2
    ensures status != Pending ==> CreditsOf(status, actions) <= 1 && StatusAfter(status, actions) != Pending
    ensures StatusAfter(status, actions) == Pending ==> CreditsOf(status, actions) == 0
    ensures StatusAfter(status, actions) != Reversed ==> CreditsOf(status, actions) <= if status == Pending then 1 else 0
  {
    if actions != [] {
      CreditBound(status, actions[..|actions| - 1]);
    }
  }

  predicate FaultFree(actions: seq<(Action, Fault)>) {
    forall i :: 0 <= i < |actions| ==> actions[i].1 == NoFault
  }

  predicate Reverses(a: (Action, Fault)) {
    a.0 == Refund || a.0 == Return
  }

  /** The first reversing action, if any, is a failed transfer (not a refund). */
  ghost predicate ReturnedFirst(actions: seq<(Action, Fault)>) {
    exists i :: 0 <= i < |actions| && actions[i].0 == Return && forall j :: 0 <= j < i ==> !Reverses(actions[j])
  }

  lemma {:induction false} ReversedExactly(status: Status, actions: seq<(Action, Fault)>)
    requires FaultFree(actions) && status != Reversed
    ensures StatusAfter(status, actions) == Reversed <==> exists i :: 0 <= i < |actions| && Reverses(actions[i])
    ensures StatusAfter(status, actions) == Pending <==> status == Pending && actions == []
  {
    if actions != [] {
      var front, last := actions[..|actions| - 1], actions[|actions| - 1];
      ReversedExactly(status, front);
      assert forall i :: 0 <= i < |front| ==> front[i] == actions[i];
      if Reverses(last) {
        assert actions[|actions| - 1] == last;
      }
    }
  }

  /** What a transaction earns its owner, read off its events alone: once for a payment that comes
      first while it is pending, once for a transfer that fails before any refund, and nothing when
      it starts reversed. */
  ghost function Earned(status: Status, actions: seq<(Action, Fault)>): nat {
    if status == Reversed then 0
    else Bit(status == Pending && actions != [] && actions[0].0 == Pay) + Bit(ReturnedFirst(actions))
  }

  /** Where a transaction ends, read off its events alone. */
  ghost function EndStatus(status: Status, actions: seq<(Action, Fault)>): Status {
    if status == Reversed || exists i :: 0 <= i < |actions| && Reverses(actions[i]) then Reversed
    else if status == Pending && actions != [] then (if actions[0].0 == Pay then Completed else Failed)
    else status
  }

  lemma {:induction false} ReversedStays(actions: seq<(Action, Fault)>)
    ensures CreditsOf(Reversed, actions) == 0 && StatusAfter(Reversed, actions) == Reversed
  {
    if actions != [] {
      ReversedStays(actions[..|actions| - 1]);
    }
  }

  /** Without faults the status and the credits are those. */
  lemma {:induction false} CreditsExact(status: Status, actions: seq<(Action, Fault)>)
    requires FaultFree(actions)
    ensures CreditsOf(status, actions) == Earned(status, actions)
  {
    hide ReturnedFirst, Reverses;
    if status == Reversed {
      ReversedStays(actions);
    } else if actions == [] {
      NothingReturned();
    } else {
      var front, last := actions[..|actions| - 1], actions[|actions| - 1];
      CreditsExact(status, front);
      ReversedExactly(status, front);
      ReturnedFirstSnoc(front, last);
      assert actions == front + [last];
    }
  }

  lemma {:induction false} StatusExact(status: Status, actions: seq<(Action, Fault)>)
    requires FaultFree(actions)
    ensures StatusAfter(status, actions) == EndStatus(status, actions)
  {
    if status == Reversed {
      ReversedStays(actions);
    } else if actions != [] {
      var front, last := actions[..|actions| - 1], actions[|actions| - 1];
      StatusExact(status, front);
      ReversedExactly(status, front);
      ReversedExactly(status, actions);
      assert forall i :: 0 <= i < |front| ==> front[i] == actions[i];
      assert actions[|actions| - 1] == last;
    }
  }

  lemma NothingReturned()
    ensures !ReturnedFirst([])
  {
  }

  lemma ReturnedFirstSnoc(front: seq<(Action, Fault)>, last: (Action, Fault))
    ensures ReturnedFirst(front + [last])
       <==> ReturnedFirst(front) || (last.0 == Return && forall i :: 0 <= i < |front| ==> !Reverses(front[i]))
    ensures ReturnedFirst(front) ==> exists i :: 0 <= i < |front| && Reverses(front[i])
  {
    var all := front + [last];
    if ReturnedFirst(front) {
      var i :| 0 <= i < |front| && front[i].0 == Return && forall j :: 0 <= j < i ==> !Reverses(front[j]);
      assert all[i].0 == Return && forall j :: 0 <= j < i ==> !Reverses(all[j]);
    }
    if last.0 == Return && forall i :: 0 <= i < |front| ==> !Reverses(front[i]) {
      assert all[|front|].0 == Return && forall j :: 0 <= j < |front| ==> !Reverses(all[j]);
    }
    if ReturnedFirst(all) {
      var i :| 0 <= i < |all| && all[i].0 == Return && forall j :: 0 <= j < i ==> !Reverses(all[j]);
      assert forall j :: 0 <= j < |front| ==> front[j] == all[j];
    }
  }

  /** The actions that reached their first write, taken as if nothing had failed. */
  function Effective(actions: seq<(Action, Fault)>): seq<(Action, Fault)> {
    if actions == [] then []
    else
      var front, last := Effective(actions[..|actions| - 1]), actions[|actions| - 1];
      if last.1 == BeforeWrites then front else front + [(last.0, NoFault)]
  }

  /** The credits that a handler owed when it died between its two writes. */
  function LostCredits(status: Status, actions: seq<(Action, Fault)>): nat {
    if actions == [] then 0
    else
      var front, last := actions[..|actions| - 1], actions[|actions| - 1];
      LostCredits(status, front)
      + Bit(last.1 == BetweenWrites && Advance(StatusAfter(status, front), last.0, NoFault).1)
  }

  /** With failures: what was credited plus what was lost between two writes is exactly what the
      effective actions earn, and the status is theirs. */
  lemma {:induction false} CreditsAndLosses(status: Status, actions: seq<(Action, Fault)>)
    ensures FaultFree(Effective(actions))
    ensures StatusAfter(status, actions) == EndStatus(status, Effective(actions))
    ensures CreditsOf(status, actions) + LostCredits(status, actions) == Earned(status, Effective(actions))
  {
    hide ReturnedFirst, StatusAfter, CreditsOf, LostCredits, Effective, Earned, EndStatus;
    EffectiveCredits(status, actions);
    CreditsExact(status, Effective(actions));
    StatusExact(status, Effective(actions));
  }

  lemma OneMoreAction(status: Status, front: seq<(Action, Fault)>, last: (Action, Fault))
    ensures var next := Advance(StatusAfter(status, front), last.0, last.1);
            && StatusAfter(status, front + [last]) == next.0
            && CreditsOf(status, front + [last]) == CreditsOf(status, front) + Bit(next.1)
    ensures LostCredits(status, front + [last])
         == LostCredits(status, front) + Bit(last.1 == BetweenWrites && Advance(StatusAfter(status, front), last.0, NoFault).1)
    ensures Effective(front + [last]) == if last.1 == BeforeWrites then Effective(front) else Effective(front) + [(last.0, NoFault)]
  {
    hide Advance;
    var all := front + [last];
    assert all[..|all| - 1] == front && all[|all| - 1] == last;
  }

  lemma {:induction false} EffectiveCredits(status: Status, actions: seq<(Action, Fault)>)
    ensures FaultFree(Effective(actions))
    ensures StatusAfter(status, actions) == StatusAfter(status, Effective(actions))
    ensures CreditsOf(status, actions) + LostCredits(status, actions) == CreditsOf(status, Effective(actions))
  {
    hide StatusAfter, CreditsOf, LostCredits, Effective;
    if actions == [] {
      NoActions(status);
    } else {
      var front, last := actions[..|actions| - 1], actions[|actions| - 1];
      EffectiveCredits(status, front);
      assert actions == front + [last];
      OneMoreAction(status, front, last);
      OneMoreAction(status, Effective(front), (last.0, NoFault));
    }
  }

  lemma NoActions(status: Status)
    ensures Effective([]) == [] && LostCredits(status, []) == 0
  {
  }

  // ---- Balances from events ----------------------------------------------------------------------

  /** Over the owner's first n transactions: amount times what their events earn. */
  ghost function EarnedBy(l: Ledger, ds: seq<Delivery>, book: Book, owner: nat, n: nat): int
    requires n <= |Rows(l, book)|
  {
    if n == 0 then 0
    else
      var tx := Rows(l, book)[n - 1];
      EarnedBy(l, ds, book, owner, n - 1) + Share(tx, owner, Earned(tx.status, Effective(ActionsOn(l, ds, Ref(book, n - 1)))))
  }

  /** The same for what died between a status write and its balance write. */
  function LostBy(l: Ledger, ds: seq<Delivery>, book: Book, owner: nat, n: nat): int
    requires n <= |Rows(l, book)|
  {
    if n == 0 then 0
    else
      var tx := Rows(l, book)[n - 1];
      LostBy(l, ds, book, owner, n - 1) + Share(tx, owner, LostCredits(tx.status, ActionsOn(l, ds, Ref(book, n - 1))))
  }

  lemma {:induction false} OwedIsEarned(l: Ledger, ds: seq<Delivery>, book: Book, owner: nat, n: nat)
    requires n <= |Rows(l, book)|
    ensures Owed(l, ds, book, owner, n) == EarnedBy(l, ds, book, owner, n) - LostBy(l, ds, book, owner, n)
  {
    hide Earned, Effective, LostCredits, CreditsOf, ActionsOn, Share;
    if n > 0 {
      OwedIsEarned(l, ds, book, owner, n - 1);
      var tx, actions := Rows(l, book)[n - 1], ActionsOn(l, ds, Ref(book, n - 1));
      CreditsAndLosses(tx.status, actions);
      ShareSplits(tx, owner, CreditsOf(tx.status, actions), LostCredits(tx.status, actions));
    }
  }

  /** Every row and every account after any stream, from the events alone: where the effective events
      leave the transaction, and the start plus what they earn less what failures lost. */
  ghost predicate EventForm(l: Ledger, ds: seq<Delivery>, l': Ledger, book: Book) {
    var before, after := Rows(l, book), Rows(l', book);
    && |after| == |before|
    && (forall i :: 0 <= i < |before| ==>
          after[i] == before[i].(status := EndStatus(before[i].status, Effective(ActionsOn(l, ds, Ref(book, i))))))
    && Balances(l', book).Keys == Balances(l, book).Keys
    && (forall a :: a in Balances(l, book) ==>
          Balances(l', book)[a]
          == Balances(l, book)[a] + EarnedBy(l, ds, book, a, |before|) - LostBy(l, ds, book, a, |before|))
  }

  lemma BalancesFromEvents(l: Ledger, ds: seq<Delivery>, book: Book)
    ensures EventForm(l, ds, ProcessAll(l, ds), book)
    ensures (forall i :: 0 <= i < |ds| ==> ds[i].fault == NoFault) ==>
              forall a, n: nat | n <= |Rows(l, book)| :: LostBy(l, ds, book, a, n) == 0
  {
    hide ProcessAll, Earned, EndStatus, Effective, LostCredits, ActionsOn, StatusAfter, Owed, EarnedBy, LostBy;
    LedgerClosedForm(l, ds);
    var rows := Rows(l, book);
    forall i | 0 <= i < |rows|
      ensures StatusAfter(rows[i].status, ActionsOn(l, ds, Ref(book, i)))
           == EndStatus(rows[i].status, Effective(ActionsOn(l, ds, Ref(book, i))))
    {
      CreditsAndLosses(rows[i].status, ActionsOn(l, ds, Ref(book, i)));
    }
    forall a | a in Balances(l, book)
      ensures Owed(l, ds, book, a, |rows|) == EarnedBy(l, ds, book, a, |rows|) - LostBy(l, ds, book, a, |rows|)
    {
      OwedIsEarned(l, ds, book, a, |rows|);
    }
    if forall i :: 0 <= i < |ds| ==> ds[i].fault == NoFault {
      forall a, n: nat | n <= |rows| ensures LostBy(l, ds, book, a, n) == 0 {
        NothingLost(l, ds, book, a, n);
      }
    }
  }

  lemma {:induction false} NothingLost(l: Ledger, ds: seq<Delivery>, book: Book, owner: nat, n: nat)
    requires n <= |Rows(l, book)| && forall i :: 0 <= i < |ds| ==> ds[i].fault == NoFault
    ensures LostBy(l, ds, book, owner, n) == 0
  {
    if n > 0 {
      NothingLost(l, ds, book, owner, n - 1);
      FaultFreeActions(l, ds, Ref(book, n - 1));
      NoLoss(Rows(l, book)[n - 1].status, ActionsOn(l, ds, Ref(book, n - 1)));
    }
  }

  lemma {:induction false} FaultFreeActions(l: Ledger, ds: seq<Delivery>, r: Ref)
    requires forall i :: 0 <= i < |ds| ==> ds[i].fault == NoFault
    ensures FaultFree(ActionsOn(l, ds, r))
  {
    hide Target;
    if ds != [] {
      FaultFreeActions(l, ds[..|ds| - 1], r);
    }
  }

  lemma {:induction false} NoLoss(status: Status, actions: seq<(Action, Fault)>)
    requires FaultFree(actions)
    ensures LostCredits(status, actions) == 0
  {
    if actions != [] {
      NoLoss(status, actions[..|actions| - 1]);
    }
  }

  /** A handler that dies between the status write and the balance write loses the top-up for good:
      whatever payment events follow, redelivered or new, the transaction is never credited. */
  lemma {:induction false} LostTopUpStaysLost(actions: seq<(Action, Fault)>)
    requires forall i :: 0 <= i < |actions| ==> actions[i].0 != Return
    ensures var all := [(Pay, BetweenWrites)] + actions;
            CreditsOf(Pending, all) == 0 && StatusAfter(Pending, all) != Pending
  {
    var all := [(Pay, BetweenWrites)] + actions;
    if actions == [] {
      assert all[..0] == [];
    } else {
      LostTopUpStaysLost(actions[..|actions| - 1]);
      assert all[..|all| - 1] == [(Pay, BetweenWrites)] + actions[..|actions| - 1];
    }
  }

  // ---- One delivery, column by column ------------------------------------------------------

  // Each kind of event in the words of the source: which rows and balances a delivery with a new
  // event id changes, for every way the call may end, and nothing else.

  /** What one delivery leaves of the two books and the two balance maps. */
  ghost predicate Leaves(l': Ledger, business: seq<Tx>, consultant: seq<Tx>, businessBalance: map<nat, int>, consultantBalance: map<nat, int>) {
    && l'.business == business && l'.consultant == consultant
    && l'.businessBalance == businessBalance && l'.consultantBalance == consultantBalance
  }

  /** The account of `owner`, if there is one, with `amount` more. */
  function Deposited(balances: map<nat, int>, owner: nat, amount: int): map<nat, int> {
    if owner in balances then balances[owner := balances[owner] + amount] else balances
  }

  /** Transfer events are Stripe's, every other kind but the unhandled Stripe ones is Polar's. The
      event row is stored under that processor; it ends processed exactly when the handler returns,
      and a delivery whose row is there already changes nothing at all. */
  lemma EventRowExactly(l: Ledger, d: Delivery)
    ensures var key := Key(if d.body.TransferFailed? || d.body == OtherStripe then Stripe else Polar, d.id);
            && (key in l.seen ==> Process(l, d) == l)
            && (key !in l.seen ==>
                  Process(l, d).seen == l.seen[key := if d.fault == NoFault then Processed else FailedOnce])
  {
    hide Handle;
    HandleKeepsSeen(l, d);
  }

  /** A refund marks the transaction reversed whatever its status; no balance moves. */
  lemma RefundExactly(l: Ledger, id: nat, tx: Option<nat>, fault: Fault)
    requires Key(Polar, id) !in l.seen
    ensures var l' := Process(l, Delivery(id, RefundCreated(tx), fault));
            var found := tx.Some? && tx.value < |l.business| && fault != BeforeWrites;
            Leaves(l', if found then l.business[tx.value := l.business[tx.value].(status := Reversed)] else l.business,
                   l.consultant, l.businessBalance, l.consultantBalance)
  {
    SameStatus(l.business);
  }

  /** A failed payment marks a pending transaction failed and leaves every other status alone. */
  lemma PaymentFailedExactly(l: Ledger, id: nat, tx: Option<nat>, fault: Fault)
    requires Key(Polar, id) !in l.seen
    ensures var l' := Process(l, Delivery(id, PaymentFailed(tx), fault));
            var pending := tx.Some? && tx.value < |l.business| && l.business[tx.value].status == Pending && fault != BeforeWrites;
            Leaves(l', if pending then l.business[tx.value := l.business[tx.value].(status := Failed)] else l.business,
                   l.consultant, l.businessBalance, l.consultantBalance)
  {
    SameStatus(l.business);
  }

  /** A paid top-up completes a pending transaction and adds its amount to its owner's account, unless
      the call dies between the two writes; in any other status it does nothing. */
  lemma TopUpExactly(l: Ledger, id: nat, tx: Option<nat>, fault: Fault)
    requires Key(Polar, id) !in l.seen
    ensures var l' := Process(l, Delivery(id, TopUpPaid(tx), fault));
            var pending := tx.Some? && tx.value < |l.business| && l.business[tx.value].status == Pending && fault != BeforeWrites;
            if !pending then Leaves(l', l.business, l.consultant, l.businessBalance, l.consultantBalance)
            else
              var row := l.business[tx.value];
              Leaves(l', l.business[tx.value := row.(status := Completed)], l.consultant,
                     if fault == BetweenWrites then l.businessBalance else Deposited(l.businessBalance, row.owner, row.amount),
                     l.consultantBalance)
  {
    SameStatus(l.business);
  }

  /** Row i is the first with this transfer id. */
  predicate FirstWith(txs: seq<Tx>, transfer: nat, i: nat) {
    i < |txs| && txs[i].transferId == Some(transfer) && forall k :: 0 <= k < i ==> txs[k].transferId != Some(transfer)
  }

  lemma TransferTarget(l: Ledger, transfer: nat)
    ensures var target := Target(l, TransferFailed(Some(transfer)));
            && (forall i :: FirstWith(l.business, transfer, i) ==> target == Some(Ref(Business, i)))
            && ((forall k :: 0 <= k < |l.business| ==> l.business[k].transferId != Some(transfer)) ==>
                  && (forall i :: FirstWith(l.consultant, transfer, i) ==> target == Some(Ref(Consultant, i)))
                  && ((forall k :: 0 <= k < |l.consultant| ==> l.consultant[k].transferId != Some(transfer)) ==> target == None))
  {
    var i, j := FindTransfer(l.business, transfer), FindTransfer(l.consultant, transfer);
    assert i < |l.business| ==> FirstWith(l.business, transfer, i);
    assert j < |l.consultant| ==> FirstWith(l.consultant, transfer, j);
  }

  /** A failed transfer reverses the first business withdrawal with its id and gives the amount back;
      one already reversed is left alone. */
  lemma BusinessTransferExactly(l: Ledger, id: nat, transfer: nat, i: nat, fault: Fault)
    requires Key(Stripe, id) !in l.seen && FirstWith(l.business, transfer, i)
    ensures var l', row := Process(l, Delivery(id, TransferFailed(Some(transfer)), fault)), l.business[i];
            if row.status == Reversed || fault == BeforeWrites then
              Leaves(l', l.business, l.consultant, l.businessBalance, l.consultantBalance)
            else
              Leaves(l', l.business[i := row.(status := Reversed)], l.consultant,
                     if fault == BetweenWrites then l.businessBalance else Deposited(l.businessBalance, row.owner, row.amount),
                     l.consultantBalance)
  {
    hide Target;
    TransferTarget(l, transfer);
    SameStatus(l.business);
  }

  /** Only when no business withdrawal has the id is the first consultant's one looked for. */
  lemma ConsultantTransferExactly(l: Ledger, id: nat, transfer: nat, i: nat, fault: Fault)
    requires Key(Stripe, id) !in l.seen && FirstWith(l.consultant, transfer, i)
    requires forall k :: 0 <= k < |l.business| ==> l.business[k].transferId != Some(transfer)
    ensures var l', row := Process(l, Delivery(id, TransferFailed(Some(transfer)), fault)), l.consultant[i];
            if row.status == Reversed || fault == BeforeWrites then
              Leaves(l', l.business, l.consultant, l.businessBalance, l.consultantBalance)
            else
              Leaves(l', l.business, l.consultant[i := row.(status := Reversed)], l.businessBalance,
                     if fault == BetweenWrites then l.consultantBalance
                     else Deposited(l.consultantBalance, row.owner, row.amount))
  {
    hide Target;
    TransferTarget(l, transfer);
    SameStatus(l.consultant);
  }

  /** Invoice payments, the kinds no handler knows, and transfers with no id or an unknown one leave
      every row and balance as it is. */
  lemma OtherEventsExactly(l: Ledger, d: Delivery)
    requires d.body.InvoicePaid? || d.body == OtherPolar || d.body == OtherStripe || d.body.TransferFailed?
    requires d.body.TransferFailed? && d.body.transfer.Some? ==>
               && (forall k :: 0 <= k < |l.business| ==> l.business[k].transferId != d.body.transfer)
               && (forall k :: 0 <= k < |l.consultant| ==> l.consultant[k].transferId != d.body.transfer)
    ensures Leaves(Process(l, d), l.business, l.consultant, l.businessBalance, l.consultantBalance)
  {
    if d.body.TransferFailed? && d.body.transfer.Some? {
      TransferTarget(l, d.body.transfer.value);
    }
  }

  lemma SameStatus(txs: seq<Tx>)
    ensures forall i :: 0 <= i < |txs| ==> txs[i := txs[i].(status := txs[i].status)] == txs
  {
  }
}
