/** The observable effects of the navigation delegate: the decision handed to
    WebKit's `decisionHandler` and the owner callbacks `_onLoadStarted` and
    `_onLoadFinished`, as traces in emission order. */
module Events {
  import opened Wrappers

  datatype Policy = Allow | Cancel

  datatype Effect =
    | Decision(policy: Policy)
    | LoadStarted(url: string, navigationType: string)
    | LoadFinished(url: string, error: Option<string>)

  datatype Kind = DecisionKind | StartedKind | FinishedKind

  function KindOf(e: Effect): Kind {
    match e
    case Decision(_) => DecisionKind
    case LoadStarted(_, _) => StartedKind
    case LoadFinished(_, _) => FinishedKind
  }

  /** The number of effects of kind `k` in `t`. */
  function Count(t: seq<Effect>, k: Kind): (n: nat)
    ensures n <= |t|
    ensures n == 0 <==> forall i :: 0 <= i < |t| ==> KindOf(t[i]) != k
  {
    if t == [] then 0
    else (if KindOf(t[0]) == k then 1 else 0) + Count(t[1..], k)
  }

  /** Counting distributes over concatenation of traces. */
  lemma {:induction false} CountConcat(a: seq<Effect>, b: seq<Effect>, k: Kind)
    ensures Count(a + b, k) == Count(a, k) + Count(b, k)
    decreases |a|
  {
    if a == [] {
      assert a + b == b;
    } else {
      assert (a + b)[1..] == a[1..] + b;
      CountConcat(a[1..], b, k);
    }
  }

  /** Every effect of kind `k1` comes strictly before every effect of kind `k2`. */
  ghost predicate Precedes(t: seq<Effect>, k1: Kind, k2: Kind) {
    forall i, j :: 0 <= i < |t| && 0 <= j < |t| && KindOf(t[i]) == k1 && KindOf(t[j]) == k2 ==> i < j
  }

  /** Concatenating two traces that each keep `k1` before `k2` keeps that
      order, unless a `k2` of the first could meet a `k1` of the second. */
  lemma PrecedesConcat(a: seq<Effect>, b: seq<Effect>, k1: Kind, k2: Kind)
    requires Precedes(a, k1, k2) && Precedes(b, k1, k2)
    requires Count(a, k2) == 0 || Count(b, k1) == 0
    ensures Precedes(a + b, k1, k2)
  {
    var t := a + b;
    forall i, j | 0 <= i < |t| && 0 <= j < |t| && KindOf(t[i]) == k1 && KindOf(t[j]) == k2
      ensures i < j
    {
      if i < |a| && j < |a| {
        assert t[i] == a[i] && t[j] == a[j];
      } else if |a| <= i && |a| <= j {
        assert t[i] == b[i - |a|] && t[j] == b[j - |a|];
      }
    }
  }
}
