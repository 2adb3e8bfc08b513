/** The processor as code: rows and balances are fields, each webhook is one method call that is
    proved to act as WebhookLedger.Process. */
module WebhookProcessor {
  import opened Text
  import opened WebhookLedger

  class WebhookProcessor {
    var events: map<Key, EventRow>
    var business: seq<Tx>
    var consultant: seq<Tx>
    var businessBalance: map<nat, int>
    var consultantBalance: map<nat, int>

    ghost function State(): Ledger
      reads this
    {
      Ledger(events, business, consultant, businessBalance, consultantBalance)
    }

    constructor (l: Ledger)
      ensures State() == l
    {
      events, business, consultant := l.seen, l.business, l.consultant;
      businessBalance, consultantBalance := l.businessBalance, l.consultantBalance;
    }

    /** `handlePaymentSucceeded`, top-up flow. */
    method HandlePaymentSucceeded(d: Delivery) returns (threw: bool)
      requires d.body.TopUpPaid? || d.body.InvoicePaid?
      modifies this
      ensures State() == Handle(old(State()), d) && (threw <==> d.fault != NoFault)
    {
      threw := d.fault != NoFault;
      if d.body.InvoicePaid? || d.body.tx.None? || d.body.tx.value >= |business| || d.fault == BeforeWrites {
        assert d.body.TopUpPaid? && d.fault == BeforeWrites && d.body.tx.Some? && d.body.tx.value < |business|
          ==> business[d.body.tx.value := business[d.body.tx.value].(status := business[d.body.tx.value].status)] == business;
        return;
      }
      var i := d.body.tx.value;
      var transaction := business[i];
      if transaction.status != Pending {
        assert business[i := transaction.(status := transaction.status)] == business;
        return;
      }
      business := business[i := transaction.(status := Completed)];
      if d.fault != BetweenWrites {
        CreditBusiness(transaction);
      }
    }

    method CreditBusiness(transaction: Tx)
      modifies this`businessBalance
      ensures businessBalance == if transaction.owner in old(businessBalance)
                then old(businessBalance)[transaction.owner := old(businessBalance)[transaction.owner] + transaction.amount]
                else old(businessBalance)
    {
      if transaction.owner in businessBalance {
        var currentBalance := businessBalance[transaction.owner];
        businessBalance := businessBalance[transaction.owner := currentBalance + transaction.amount];
      }
    }

    method CreditConsultant(transaction: Tx)
      modifies this`consultantBalance
      ensures consultantBalance == if transaction.owner in old(consultantBalance)
                then old(consultantBalance)[transaction.owner := old(consultantBalance)[transaction.owner] + transaction.amount]
                else old(consultantBalance)
    {
      if transaction.owner in consultantBalance {
        var currentBalance := consultantBalance[transaction.owner];
        consultantBalance := consultantBalance[transaction.owner := currentBalance + transaction.amount];
      }
    }

    /** `handlePaymentFailed` and `handleRefundCreated`: a status write and nothing else. */
    method HandleStatusOnly(d: Delivery) returns (threw: bool)
      requires d.body.PaymentFailed? || d.body.RefundCreated?
      modifies this
      ensures State() == Handle(old(State()), d) && (threw <==> d.fault != NoFault)
    {
      threw := d.fault != NoFault;
      if d.body.tx.None? || d.body.tx.value >= |business| {
        return;
      }
      var i := d.body.tx.value;
      var transaction := business[i];
      assert business[i := transaction.(status := transaction.status)] == business;
      if d.fault == BeforeWrites || (d.body.PaymentFailed? && transaction.status != Pending) {
        return;
      }
      business := business[i := transaction.(status := if d.body.PaymentFailed? then Failed else Reversed)];
    }

    /** `handleTransferFailed`: businesses first, then consultants. */
    method HandleTransferFailed(d: Delivery) returns (threw: bool)
      requires d.body.TransferFailed?
      modifies this
      ensures State() == Handle(old(State()), d) && (threw <==> d.fault != NoFault)
    {
      threw := d.fault != NoFault;
      if d.body.transfer.None? {
        return;
      }
      var i := FindTransfer(business, d.body.transfer.value);
      if i < |business| {
        ReverseBusinessWithdrawal(i, d);
        return;
      }
      var j := FindTransfer(consultant, d.body.transfer.value);
      if j < |consultant| {
        ReverseConsultantWithdrawal(j, d);
      }
    }

    method ReverseBusinessWithdrawal(i: nat, d: Delivery)
      requires i < |business| && d.body.TransferFailed? && Target(State(), d.body) == Some(Ref(Business, i))
      modifies this
      ensures State() == Handle(old(State()), d)
    {
      var transaction := business[i];
      assert business[i := transaction.(status := transaction.status)] == business;
      if d.fault == BeforeWrites || transaction.status == Reversed {
        return;
      }
      business := business[i := transaction.(status := Reversed)];
      if d.fault != BetweenWrites {
        CreditBusiness(transaction);
      }
    }

    method ReverseConsultantWithdrawal(j: nat, d: Delivery)
      requires j < |consultant| && d.body.TransferFailed? && Target(State(), d.body) == Some(Ref(Consultant, j))
      modifies this
      ensures State() == Handle(old(State()), d)
    {
      var transaction := consultant[j];
      assert consultant[j := transaction.(status := transaction.status)] == consultant;
      if d.fault == BeforeWrites || transaction.status == Reversed {
        return;
      }
      consultant := consultant[j := transaction.(status := Reversed)];
      if d.fault != BetweenWrites {
        CreditConsultant(transaction);
      }
    }

    /** `processPolarWebhook` / `processStripeWebhook`: store the event row, dispatch, record the
        outcome; a stored row, even a failed one, makes the call a no-op. */
    method ProcessWebhook(d: Delivery) returns (threw: bool)
      modifies this
      ensures State() == Process(old(State()), d)
      ensures threw <==> KeyOf(d) !in old(events) && d.fault != NoFault
    {
      threw := false;
      if KeyOf(d) in events {
        return;
      }
      match d.body {
        case TopUpPaid(_) => threw := HandlePaymentSucceeded(d);
        case InvoicePaid(_, _) => threw := HandlePaymentSucceeded(d);
        case PaymentFailed(_) => threw := HandleStatusOnly(d);
        case RefundCreated(_) => threw := HandleStatusOnly(d);
        case TransferFailed(_) => threw := HandleTransferFailed(d);
        case OtherPolar => threw := d.fault != NoFault;
        case OtherStripe => threw := d.fault != NoFault;
      }
      events := events[KeyOf(d) := if threw then FailedOnce else Processed];
    }
  }
}
