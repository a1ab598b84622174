/**
  The compile-time dependency check, as derivations.

  A registered module list is a nested pair type; a trait bound holds when a witness for it
  exists. `AllDepsOkIff` says for which lists the bound on `run` can be satisfied at all.
 */
module Dependency {

  /** `()` or `(Head, Rest)`; modules are named by their type. */
  datatype TypeList = Unit | Pair(head: string, rest: TypeList)

  datatype Proof = Here | There(p: Proof)

  datatype Proofs = NoProofs | AndProof(head: Proof, rest: Proofs)

  datatype ListProofs = NoModules | AndModule(head: Proofs, rest: ListProofs)

  /** `List: ContainsModule<M, Proof>`. */
  predicate ContainsModule(list: TypeList, m: string, proof: Proof) {
    match proof
    case Here => list.Pair? && list.head == m
    case There(p) => list.Pair? && ContainsModule(list.rest, m, p)
  }

  /** `List: ContainsAll<Required, Proofs>`. */
  predicate ContainsAll(list: TypeList, required: TypeList, proofs: Proofs) {
    match required
    case Unit => proofs.NoProofs?
    case Pair(h, t) => proofs.AndProof? && ContainsModule(list, h, proofs.head) && ContainsAll(list, t, proofs.rest)
  }

  /** `List: AllDepsOk<Proofs>`; `required` gives each module's `Required`. */
  predicate AllDepsOk(list: TypeList, required: string -> TypeList, proofs: ListProofs) {
    match list
    case Unit => proofs.NoModules?
    case Pair(m, rest) => proofs.AndModule? && AllDepsOk(rest, required, proofs.rest)
                          && ContainsAll(list, required(m), proofs.head)
  }

  function Elems(list: TypeList): seq<string> {
    match list case Unit => [] case Pair(h, t) => [h] + Elems(t)
  }

  lemma {:induction false} ContainsSound(list: TypeList, m: string, p: Proof)
    requires ContainsModule(list, m, p)
    ensures m in Elems(list)
  {
    if p.There? { ContainsSound(list.rest, m, p.p); }
  }

  lemma {:induction false} ContainsComplete(list: TypeList, m: string) returns (p: Proof)
    requires m in Elems(list)
    ensures ContainsModule(list, m, p)
  {
    if list.head == m {
      p := Here;
    } else {
      var q := ContainsComplete(list.rest, m);
      p := There(q);
    }
  }

  /** In a list without repetitions the witness is unique, so inference cannot be ambiguous. */
  lemma {:induction false} ContainsUnique(list: TypeList, m: string, p: Proof, q: Proof)
    requires forall i, j :: 0 <= i < j < |Elems(list)| ==> Elems(list)[i] != Elems(list)[j]
    requires ContainsModule(list, m, p) && ContainsModule(list, m, q)
    ensures p == q
  {
    var es := Elems(list);
    assert es[0] == list.head && es[1..] == Elems(list.rest);
    assert forall i :: 0 <= i < |es| - 1 ==> es[1..][i] == es[i + 1];
    if p.There? { ContainsSound(list.rest, m, p.p); }
    if q.There? { ContainsSound(list.rest, m, q.p); }
    if p.There? && q.There? { ContainsUnique(list.rest, m, p.p, q.p); }
  }

  lemma {:induction false} ContainsAllSound(list: TypeList, required: TypeList, ps: Proofs, m: string)
    requires ContainsAll(list, required, ps) && m in Elems(required)
    ensures m in Elems(list)
  {
    if required.head == m {
      ContainsSound(list, m, ps.head);
    } else {
      ContainsAllSound(list, required.rest, ps.rest, m);
    }
  }

  lemma {:induction false} ContainsAllComplete(list: TypeList, required: TypeList) returns (ps: Proofs)
    requires forall m :: m in Elems(required) ==> m in Elems(list)
    ensures ContainsAll(list, required, ps)
  {
    if required.Unit? { return NoProofs; }
    assert required.head in Elems(required) && forall m :: m in Elems(required.rest) ==> m in Elems(required);
    var p := ContainsComplete(list, required.head);
    var rest := ContainsAllComplete(list, required.rest);
    ps := AndProof(p, rest);
  }

  /** Every module's requirements lie in the list from that module on. */
  ghost predicate RequiredInSuffix(list: seq<string>, required: string -> TypeList) {
    forall i, m :: 0 <= i < |list| && m in Elems(required(list[i])) ==> m in list[i..]
  }

  lemma {:induction false} AllDepsOkSound(list: TypeList, required: string -> TypeList, ps: ListProofs)
    requires AllDepsOk(list, required, ps)
    ensures RequiredInSuffix(Elems(list), required)
  {
    if list.Pair? {
      AllDepsOkSound(list.rest, required, ps.rest);
      forall m | m in Elems(required(list.head)) ensures m in Elems(list) {
        ContainsAllSound(list, required(list.head), ps.head, m);
      }
      SuffixSplit(list.head, Elems(list.rest), required);
    }
  }

  lemma {:induction false} AllDepsOkComplete(list: TypeList, required: string -> TypeList) returns (ps: ListProofs)
    requires RequiredInSuffix(Elems(list), required)
    ensures AllDepsOk(list, required, ps)
  {
    if list.Unit? { return NoModules; }
    SuffixSplit(list.head, Elems(list.rest), required);
    var rest := AllDepsOkComplete(list.rest, required);
    var own := ContainsAllComplete(list, required(list.head));
    ps := AndModule(own, rest);
  }

  /** Some witness satisfies the bound. */
  ghost predicate Derivable(list: TypeList, required: string -> TypeList) {
    exists ps :: AllDepsOk(list, required, ps)
  }

  /** The bound on `run` can be satisfied exactly when each module's requirements are registered
      no later than the module itself (modules are prepended, so later in the list is earlier). */
  lemma {:induction false} AllDepsOkIff(list: TypeList, required: string -> TypeList)
    ensures Derivable(list, required) <==> RequiredInSuffix(Elems(list), required)
  {
    if ps :| AllDepsOk(list, required, ps) { AllDepsOkSound(list, required, ps); }
    if RequiredInSuffix(Elems(list), required) {
      var ps := AllDepsOkComplete(list, required);
      assert AllDepsOk(list, required, ps);
    }
  }

  lemma SuffixSplit(h: string, t: seq<string>, required: string -> TypeList)
    ensures RequiredInSuffix([h] + t, required) <==>
            RequiredInSuffix(t, required) && forall m :: m in Elems(required(h)) ==> m in [h] + t
  {
    var l := [h] + t;
    assert l[0..] == l;
    if RequiredInSuffix(l, required) {
      forall i, m | 0 <= i < |t| && m in Elems(required(t[i])) ensures m in t[i..] {
        assert l[i + 1] == t[i] && l[i + 1..] == t[i..];
      }
      forall m | m in Elems(required(h)) ensures m in l { assert m in Elems(required(l[0])) ==> m in l[0..]; }
    }
    if RequiredInSuffix(t, required) && forall m :: m in Elems(required(h)) ==> m in l {
      forall i, m | 0 <= i < |l| && m in Elems(required(l[i])) ensures m in l[i..] {
        if i > 0 { assert l[i] == t[i - 1] && l[i..] == t[i - 1..]; }
      }
    }
  }

  /** Having every dependency somewhere in the list is not enough: registering `B` (which requires
      `A`) before `A` gives a list that no witness accepts. */
  lemma RegistrationOrderMatters(required: string -> TypeList)
    requires required("B") == Pair("A", Unit) && required("A") == Unit
    ensures forall m, r :: m in ["A", "B"] && r in Elems(required(m)) ==> r in ["A", "B"]
    ensures !Derivable(Pair("A", Pair("B", Unit)), required)
  {
    var list := Pair("A", Pair("B", Unit));
    assert Elems(list) == ["A", "B"];
    assert Elems(required("B")) == ["A"];
    AllDepsOkIff(list, required);
    assert ["A", "B"][1..] == ["B"];
    assert !("A" in ["A", "B"][1..]);
  }
}
