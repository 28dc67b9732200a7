/** The confirmation-email worker: it drains
    tuq:pending_confirmation_emails, sends each receiver a confirmation link
    and records the receivers whose sending failed in
    tuq:failed_confirmation_emails. */
module EmailBroker {
  import opened Wrappers
  import opened Text
  import opened Stores
  import AdminBroker

  /** Seconds the worker sleeps after finding no pending email. */
  const SleepSeconds := 600
  /** Seconds the worker waits before its first poll. */
  const StartupDelaySeconds := 5
  /** Lifetime of a confirmation token in seconds: twelve hours. */
  const ExpiryInterval := 43200

  const Sender := "[Tuq]The Universal Quiz Network"
  const Subject := "[Tuq] Confirm your email account"
  const CompanyName := "Tuq"
  const LinkPrefix := "https://sproot.xyz/tuq/confirm?token="

  /** The JSON object a confirmation token signs. */
  datatype TokenPayload = TokenPayload(endUsers: string, id: string)

  /** A confirmation email handed to the mail transport: the recipient, the
      full name and link the template is rendered with. */
  datatype ConfirmationMail = ConfirmationMail(
    sender: string,
    recipient: string,
    subject: string,
    fullName: string,
    company: string,
    link: string)

  /** The link a confirmation email carries for a token. */
  function ConfirmationLink(token: string): (link: string)
    ensures |link| == |LinkPrefix| + |token|
    ensures link[..|LinkPrefix|] == LinkPrefix && link[|LinkPrefix|..] == token
  {
    LinkPrefix + token
  }

  /** The token a confirmation link carries, as the confirm route reads it back. */
  function TokenOfLink(link: string): (r: Option<string>)
    ensures r.Some? <==> |link| >= |LinkPrefix| && link[..|LinkPrefix|] == LinkPrefix
    ensures r.Some? ==> link == LinkPrefix + r.value
  {
    if |link| >= |LinkPrefix| && link[..|LinkPrefix|] == LinkPrefix then Some(link[|LinkPrefix|..]) else None
  }

  /** Every token survives the trip through its link, and different tokens
      give different links. */
  lemma LinkRoundTrip(token: string, other: string)
    ensures TokenOfLink(ConfirmationLink(token)) == Some(token)
    ensures ConfirmationLink(token) == ConfirmationLink(other) ==> token == other
  {
    assert ConfirmationLink(token)[..|LinkPrefix|] == LinkPrefix;
    assert ConfirmationLink(token)[|LinkPrefix|..] == token;
    if ConfirmationLink(token) == ConfirmationLink(other) {
      assert ConfirmationLink(other)[|LinkPrefix|..] == other;
    }
  }

  /** A string that is not a confirmation link yields no token. */
  lemma LinkRejected(link: string)
    requires |link| < |LinkPrefix| || link[..|LinkPrefix|] != LinkPrefix
    ensures TokenOfLink(link).None?
  {
  }

  /** What one cycle depends on besides the store: the token signer (secret
      key and clock inside) and the receivers whose sending raises, in token
      generation, template rendering or the mail transport. */
  datatype Env = Env(sign: (TokenPayload, nat) -> string, faults: set<string>)

  /** send_confirmation_message: the email for a receiver, id and full name. */
  function ConfirmationFor(env: Env, receiver: string, id: string, fullName: string): (m: ConfirmationMail)
    ensures m.recipient == receiver && m.fullName == fullName
    ensures TokenOfLink(m.link) == Some(env.sign(TokenPayload(receiver, id), ExpiryInterval))
  {
    var token := env.sign(TokenPayload(receiver, id), ExpiryInterval);
    LinkRoundTrip(token, token);
    ConfirmationMail(Sender, receiver, Subject, fullName, CompanyName, ConfirmationLink(token))
  }

  /** The two values unpacked from a queued entry: its first character is
      taken as the user id and its second as the full name. `None` when the
      entry is shorter than two characters, where indexing raises. */
  function Unpack(info: string): (r: Option<(string, string)>)
    ensures r.Some? <==> |info| >= 2
    ensures r.Some? ==> |r.value.0| == 1 && |r.value.1| == 1 && r.value.0 + r.value.1 == info[..2]
  {
    if |info| < 2 then None else Some(([info[0]], [info[1]]))
  }

  datatype EmailState = EmailState(
    pending: map<string, string>,
    failed: map<string, string>,
    sent: seq<ConfirmationMail>)

  /** One iteration of the worker's for loop; `None` when it raises outside
      the try block, on a vanished key or an entry too short to unpack. */
  function Step(env: Env, s: EmailState, receiver: string): Option<EmailState>
  {
    if receiver !in s.pending then None
    else
      match Unpack(s.pending[receiver])
      case None => None
      case Some((id, fullName)) =>
        var after :=
          if receiver in env.faults then s.(failed := s.failed[receiver := id])
          else s.(sent := s.sent + [ConfirmationFor(env, receiver, id, fullName)]);
        Some(after.(pending := after.pending - {receiver}))
  }

  function Cycle(env: Env, s: EmailState, keys: seq<string>): CycleEnd<EmailState>
    decreases |keys|
  {
    if keys == [] then Drained(s)
    else
      match Step(env, s, keys[0])
      case None => Halted(s, keys[0])
      case Some(next) => Cycle(env, next, keys[1..])
  }

  /** The emails a drained cycle hands to the transport, in snapshot order. */
  function Mails(env: Env, pending: map<string, string>, keys: seq<string>): seq<ConfirmationMail>
  {
    if keys == [] then []
    else
      var k := keys[0];
      (if k in env.faults || k !in pending || |pending[k]| < 2 then []
       else [ConfirmationFor(env, k, [pending[k][0]], [pending[k][1]])])
      + Mails(env, pending, keys[1..])
  }

  lemma {:induction false} MailsAgree(env: Env, p: map<string, string>, q: map<string, string>, keys: seq<string>)
    requires forall k :: k in keys ==> k in p && k in q && p[k] == q[k]
    ensures Mails(env, p, keys) == Mails(env, q, keys)
  {
    if keys != [] {
      MailsAgree(env, p, q, keys[1..]);
    }
  }

  lemma StepFacts(env: Env, s: EmailState, keys: seq<string>)
    requires Distinct(keys) && keys != []
    requires forall k :: k in keys ==> k in s.pending && |s.pending[k]| >= 2
    ensures Step(env, s, keys[0]).Some?
    ensures var next := Step(env, s, keys[0]).value;
      && Distinct(keys[1..])
      && (forall k :: k in keys[1..] ==> k in next.pending && next.pending[k] == s.pending[k])
      && Mails(env, s.pending, keys[1..]) == Mails(env, next.pending, keys[1..])
  {
    DistinctTail(keys);
    var next := Step(env, s, keys[0]).value;
    MailsAgree(env, s.pending, next.pending, keys[1..]);
  }

  /** A cycle over a snapshot of queued receivers whose entries all unpack:
      every snapshot receiver leaves the pending hash and nothing else does;
      a receiver lands in the failed hash, with the first character of its
      entry, exactly when sending failed, other failed entries staying as
      they were; and the transport receives one email per other receiver. */
  lemma DrainedCycle(env: Env, s: EmailState, keys: seq<string>)
    requires Distinct(keys)
    requires forall k :: k in keys ==> k in s.pending && |s.pending[k]| >= 2
    ensures Cycle(env, s, keys).Drained?
    ensures var t := Cycle(env, s, keys).state;
      && t.pending == s.pending - (set k | k in keys)
      && t.sent == s.sent + Mails(env, s.pending, keys)
      && (forall k :: k in keys && k in env.faults ==> k in t.failed && t.failed[k] == [s.pending[k][0]])
      && (forall k :: (k !in keys || k !in env.faults) ==>
            (k in t.failed <==> k in s.failed) && (k in t.failed ==> t.failed[k] == s.failed[k]))
  {
    DrainedPending(env, s, keys);
    DrainedFailed(env, s, keys);
    DrainedSent(env, s, keys);
  }

  lemma {:induction false} DrainedPending(env: Env, s: EmailState, keys: seq<string>)
    requires Distinct(keys)
    requires forall k :: k in keys ==> k in s.pending && |s.pending[k]| >= 2
    ensures Cycle(env, s, keys).Drained?
    ensures Cycle(env, s, keys).state.pending == s.pending - (set k | k in keys)
    decreases |keys|
  {
    if keys != [] {
      StepFacts(env, s, keys);
      DistinctTail(keys);
      DrainedPending(env, Step(env, s, keys[0]).value, keys[1..]);
    }
  }

  lemma {:induction false} DrainedFailed(env: Env, s: EmailState, keys: seq<string>)
    requires Distinct(keys)
    requires forall k :: k in keys ==> k in s.pending && |s.pending[k]| >= 2
    ensures Cycle(env, s, keys).Drained?
    ensures var t := Cycle(env, s, keys).state;
      && (forall k :: k in keys && k in env.faults ==> k in t.failed && t.failed[k] == [s.pending[k][0]])
      && (forall k :: (k !in keys || k !in env.faults) ==>
            (k in t.failed <==> k in s.failed) && (k in t.failed ==> t.failed[k] == s.failed[k]))
    decreases |keys|
  {
    if keys != [] {
      StepFacts(env, s, keys);
      DistinctTail(keys);
      DrainedFailed(env, Step(env, s, keys[0]).value, keys[1..]);
    }
  }

  lemma {:induction false} DrainedSent(env: Env, s: EmailState, keys: seq<string>)
    requires Distinct(keys)
    requires forall k :: k in keys ==> k in s.pending && |s.pending[k]| >= 2
    ensures Cycle(env, s, keys).Drained?
    ensures Cycle(env, s, keys).state.sent == s.sent + Mails(env, s.pending, keys)
    decreases |keys|
  {
    if keys != [] {
      StepFacts(env, s, keys);
      var next := Step(env, s, keys[0]).value;
      DrainedSent(env, next, keys[1..]);
    }
  }

  /** A cycle stops at the first snapshot receiver whose entry is shorter
      than two characters, in the state the receivers before it left. */
  lemma {:induction false} HaltedCycle(env: Env, s: EmailState, keys: seq<string>, j: nat)
    requires Distinct(keys)
    requires forall k :: k in keys ==> k in s.pending
    requires j < |keys| && |s.pending[keys[j]]| < 2
    requires forall i :: 0 <= i < j ==> |s.pending[keys[i]]| >= 2
    ensures Cycle(env, s, keys[..j]).Drained?
    ensures Cycle(env, s, keys) == Halted(Cycle(env, s, keys[..j]).state, keys[j])
    decreases j
  {
    if j > 0 {
      DistinctTail(keys);
      var next := Step(env, s, keys[0]).value;
      assert forall i :: 0 <= i < |keys[1..]| ==> keys[1..][i] == keys[i + 1];
      HaltedCycle(env, next, keys[1..], j - 1);
      assert keys[..j][0] == keys[0] && keys[..j][1..] == keys[1..][..j - 1];
    }
  }

  /** What this worker makes of an entry the admin-approval worker queued
      for user `id`: the entry always unpacks, but the "user id" is only the
      first decimal digit of `id`, the whole id only when `id < 10`, and the
      "full name" is the space of the separator for a one-digit id and the
      second digit of the id otherwise, never the full name. */
  lemma AdminEntryUnpacked(id: nat, fullname: Option<string>)
    ensures var v := AdminBroker.PendingEmailValue(id, fullname);
            var digits := DecimalString(id);
            && Unpack(v).Some?
            && Unpack(v).value.0 == [digits[0]]
            && (Unpack(v).value.0 == digits <==> id < 10)
            && Unpack(v).value.1 == (if id < 10 then " " else [digits[1]])
  {
    AdminBroker.PendingEmailValueShape(id, fullname);
    var v := AdminBroker.PendingEmailValue(id, fullname);
    var digits := DecimalString(id);
    assert v[..|digits|] == digits;
    if id < 10 {
      assert v[1..5] == " %% ";
      assert v[1] == ' ';
    } else {
      assert v[1] == digits[1];
    }
  }

  /** Seen end to end: a receiver the admin-approval worker queued for a user
      with id 10 or more is mailed a token whose id is not that user's id. */
  lemma AdminTokenCarriesWrongId(env: Env, s: EmailState, receiver: string, id: nat, fullname: Option<string>)
    requires id >= 10 && receiver !in env.faults
    requires receiver in s.pending && s.pending[receiver] == AdminBroker.PendingEmailValue(id, fullname)
    ensures Step(env, s, receiver).Some?
    ensures var m := Step(env, s, receiver).value.sent[|s.sent|];
            && m.recipient == receiver
            && TokenOfLink(m.link) == Some(env.sign(TokenPayload(receiver, [DecimalString(id)[0]]), ExpiryInterval))
            && [DecimalString(id)[0]] != DecimalString(id)
  {
    AdminEntryUnpacked(id, fullname);
  }

  /** One wake of the worker's main loop: sleep if the snapshot is empty,
      then for every receiver send the confirmation email, or record the
      receiver in the failed hash, and drop it from the pending hash. The
      emails handed to the transport are returned in `sent`. */
  method RunCycle(store: Store, snapshot: seq<string>, env: Env)
    returns (slept: nat, halt: Option<string>, sent: seq<ConfirmationMail>)
    modifies store`pendingEmails, store`failedEmails
    ensures slept == if snapshot == [] then SleepSeconds else 0
    ensures Cycle(env, EmailState(old(store.pendingEmails), old(store.failedEmails), []), snapshot)
            == Finish(EmailState(store.pendingEmails, store.failedEmails, sent), halt)
  {
    slept := if snapshot == [] then SleepSeconds else 0;
    halt, sent := None, [];
    var i := 0;
    while i < |snapshot|
      invariant 0 <= i <= |snapshot|
      invariant Cycle(env, EmailState(old(store.pendingEmails), old(store.failedEmails), []), snapshot)
                == Cycle(env, EmailState(store.pendingEmails, store.failedEmails, sent), snapshot[i..])
    {
      var receiver := snapshot[i];
      assert snapshot[i..][0] == receiver && snapshot[i..][1..] == snapshot[i + 1..];
      if receiver !in store.pendingEmails {
        halt := Some(receiver);
        return;
      }
      var info := store.pendingEmails[receiver];
      if |info| < 2 {
        halt := Some(receiver);
        return;
      }
      var receiverId, fullName := [info[0]], [info[1]];
      if receiver in env.faults {
        store.failedEmails := store.failedEmails[receiver := receiverId];
      } else {
        sent := sent + [ConfirmationFor(env, receiver, receiverId, fullName)];
      }
      store.pendingEmails := store.pendingEmails - {receiver};
      i := i + 1;
    }
  }
}
