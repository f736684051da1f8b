/** What sessions and store can hold, in every run, given what handlers put there. */
module ProtocolData {
  import opened Prelude
  import opened TtlTable
  import opened SessionModel
  import opened Protocol
  import opened ProtocolSafety
  import Csrf

  /** Which values may stand under a key, and which users may be attached. */
  datatype Rules = Rules(value: (string, Value) -> bool, user: User -> bool)

  predicate DataOk(data: map<string, Value>, rules: Rules) {
    forall key | key in data :: rules.value(key, data[key])
  }

  predicate UserOk(user: Option<User>, rules: Rules) {
    user.Some? ==> rules.user(user.value)
  }

  predicate OpOk(op: Op, rules: Rules) {
    match op
    case SetValue(key, value) => rules.value(key, value)
    case SetUser(user, _, _) => rules.user(user)
    case _ => true
  }

  predicate StepOk(step: Step, rules: Rules) {
    step.Mutate? ==> OpOk(step.op, rules)
  }

  predicate SessOk(s: Sess, rules: Rules) {
    DataOk(s.data, rules) && UserOk(s.user, rules)
  }

  /** Every session in flight and every stored one keeps to the rules. */
  ghost predicate WorldOk(w: World, rules: Rules) {
    && (forall r | IsActive(w, r) :: SessOk(w.requests[r].sess, rules))
    && (forall id | id in w.table :: EntryOk(w.table[id].data, rules))
  }

  predicate EntryOk(b: Blob, rules: Rules) {
    Decode(b).Some? ==> DataOk(Decode(b).value.data, rules) && UserOk(Decode(b).value.user, rules)
  }

  lemma OpKeepsOk(s: Sess, op: Op, rules: Rules)
    requires SessOk(s, rules) && OpOk(op, rules)
    ensures SessOk(ApplyOp(s, op), rules)
  {
  }

  lemma CommitKeepsOk(w: World, w': World, r: nat, rules: Rules)
    requires WorldOk(w, rules) && IsActive(w, r) && CommitShape(w, w', r)
    ensures WorldOk(w', rules)
  {
    var s := w.requests[r].sess;
    assert SessOk(s, rules);
    forall q | IsActive(w', q) ensures SessOk(w'.requests[q].sess, rules) {
      assert q != r ==> IsActive(w, q);
    }
  }

  lemma StepKeepsOk(w: World, step: Step, opts: Options, rules: Rules)
    requires Enabled(w, step) && WorldOk(w, rules) && StepOk(step, rules)
    ensures WorldOk(Apply(w, step, opts), rules)
  {
    var w' := Apply(w, step, opts);
    match step
    case CommitCall(r, _, _) =>
      CommitHasShape(w, step, opts);
      CommitKeepsOk(w, w', r, rules);
    case Mutate(r, op) =>
      assert SessOk(w.requests[r].sess, rules);
      OpKeepsOk(w.requests[r].sess, op, rules);
      forall q | IsActive(w', q) ensures SessOk(w'.requests[q].sess, rules) {
        assert q != r ==> IsActive(w, q);
      }
    case _ =>
      forall q | IsActive(w', q) ensures SessOk(w'.requests[q].sess, rules) {
        assert IsActive(w, q) || w'.requests != w.requests;
      }
  }

  ghost predicate StepsOk(steps: seq<Step>, rules: Rules) {
    forall step | step in steps :: StepOk(step, rules)
  }

  /** In every run whose handlers keep to the rules, so does everything stored and everything in flight. */
  lemma {:induction false} RunKeepsOk(w: World, steps: seq<Step>, opts: Options, rules: Rules)
    requires CanRun(w, steps, opts) && StepsOk(steps, rules) && WorldOk(w, rules)
    ensures WorldOk(Run(w, steps, opts), rules)
    decreases |steps|
  {
    if steps != [] {
      assert steps[0] in steps;
      StepKeepsOk(w, steps[0], opts, rules);
      RunKeepsOk(Apply(w, steps[0], opts), steps[1..], opts, rules);
    }
  }

  // ---------------------------------------------------------------- CSRF tokens over runs

  /** A masking of the token an ID was issued with: what CSRFToken returns for its sessions, stored yet or not. */
  ghost predicate IssuedFor(w: World, id: string, masked: Bytes) {
    && id in w.issued
    && exists otp: Bytes ::
         |otp| == |w.issued[id].token| && masked == Csrf.MaskToken(w.issued[id].token, otp)
  }

  lemma IssuedByAnySession(w: World, r: nat, otp: Bytes)
    requires Inv(w) && IsActive(w, r) && !w.requests[r].sess.destroyed
    requires |otp| == |w.requests[r].sess.csrfToken|
    ensures IssuedFor(w, w.requests[r].sess.id, Csrf.MaskToken(w.requests[r].sess.csrfToken, otp))
  {
    assert SessionOk(w, w.requests[r].sess);
  }

  lemma LoadedToken(w: World, id: string)
    requires Inv(w)
    ensures var load := LoadFrom(Get(w.table, id, w.now), id);
            load.Loaded? ==> id in w.issued && load.sess.csrfToken == w.issued[id].token
  {
    if Live(w.table, id, w.now) {
      assert Protocol.EntryOk(w, id, w.table[id]);
    }
  }

  lemma IssuedVerifies(w: World, id: string, masked: Bytes)
    requires Inv(w) && IssuedFor(w, id, masked)
    ensures id in w.issued && Csrf.VerifyToken(w.issued[id].token, masked)
  {
    var token := w.issued[id].token;
    var otp: Bytes :| |otp| == |token| && masked == Csrf.MaskToken(token, otp);
    Csrf.MaskingsVerify(token, otp, otp);
  }

  /**
   A CSRF token issued for an ID verifies against every session loaded later under that ID, and
   against none loaded later under another.
   */
  lemma TokensVerifyForTheirIdOnly(
      w: World, steps: seq<Step>, w': World, id: string, masked: Bytes, other: string, opts: Options)
    requires Reachable(w, opts) && IssuedFor(w, id, masked)
    requires CanRun(w, steps, opts) && w' == Run(w, steps, opts)
    ensures var load := LoadFrom(Get(w'.table, other, w'.now), other);
            load.Loaded? ==> (Csrf.VerifyToken(load.sess.csrfToken, masked) <==> other == id)
  {
    ReachableInv(w, opts);
    IssuedVerifies(w, id, masked);
    RunKeeps(w, steps, opts);
    LoadedToken(w', other);
    OnlyThisToken(w.issued[id].token, masked);
  }

  /** Nor does it verify once a user has been attached to a session, whichever session that is. */
  lemma TokensDieWithSetUser(
      w: World, steps: seq<Step>, w': World, id: string, masked: Bytes, step: Step, opts: Options)
    requires Reachable(w, opts) && IssuedFor(w, id, masked)
    requires CanRun(w, steps, opts) && w' == Run(w, steps, opts)
    requires Enabled(w', step) && step.Mutate? && step.op.SetUser?
    ensures !Csrf.VerifyToken(Apply(w', step, opts).requests[step.r].sess.csrfToken, masked)
  {
    ReachableInv(w, opts);
    IssuedVerifies(w, id, masked);
    RunKeeps(w, steps, opts);
    OnlyThisToken(w.issued[id].token, masked);
  }

  lemma OnlyThisToken(token: Bytes, masked: Bytes)
    requires Csrf.VerifyToken(token, masked)
    ensures forall other: Bytes | other != token :: !Csrf.VerifyToken(other, masked)
  {
    forall other: Bytes | other != token ensures !Csrf.VerifyToken(other, masked) {
      if Csrf.VerifyToken(other, masked) {
        Csrf.NoTextVerifiesTwice(token, other, masked);
      }
    }
  }
}
