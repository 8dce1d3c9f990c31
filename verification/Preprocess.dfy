/** What an INVOKE.ind does to the whole server (mpreproc.c): to the delivery queues and to the operations. */
module Preprocess {
  import opened Common
  import opened Router
  import opened DeliveryQueue
  import Performer
  import Store

  /** What the transport brings: a pdu that parses, one that does not, or an operation value the server does not know. */
  datatype Pdu = Parsed(inv: Performer.Invocation) | Unparsed | UnknownOperation

  /**
   mts_preprocessInvokeIndication: the deliveries of the device are due at once, whatever it has sent;
   then the pdu goes to its operation. `ok` says whether an event followed; if not, an error is returned.
   */
  method InvokeIndication(operations: Preprocessor, queues: Queues, from: Nsap, pdu: Pdu, env: Performer.Env, now: nat)
    returns (ok: bool)
    requires Router.Inv(operations.View()) && queues.Valid() && operations !in queues.owned
    requires pdu.Parsed? ==> (pdu.inv.data.Submitted? <==> pdu.inv.value.Submission?)
    modifies operations, queues`views, queues.owned
    ensures queues.Valid() && queues.View() == Store.DeliverNow(old(queues.View()), from, now)
    ensures Router.Inv(operations.View())
    ensures operations.View() ==
            if pdu.Parsed? then Admit(old(operations.View()), from, pdu.inv, env) else old(operations.View())
    ensures ok <==> pdu.Parsed? &&
                    (IsLater(pdu.inv) ==>
                       Find(old(operations.View()), old(operations.activeOperations), from, KeyOf(pdu.inv)).Some?)
  {
    queues.DeliverNow(from, now);
    match pdu
    case UnknownOperation => ok := false;
    case Unparsed => ok := false;
    case Parsed(inv) => ok := operations.Associate(from, inv, env);
  }
}
