/**
 * The toast queue of `ToastProvider`: a list of `{id, message, type}` and the
 * module-level `toastId` counter. The four-second timer is replaced by an
 * explicit `TimerFired` event carrying the id the timer captured.
 */
module Toasts {
  import opened Wrappers

  datatype ToastType = Success | Error | Info

  datatype Toast = Toast(id: nat, message: string, kind: ToastType)

  /** The toasts on screen, front to back, and the last id handed out. */
  datatype ToastState = ToastState(toasts: seq<Toast>, lastId: nat)

  const Empty := ToastState([], 0)

  /** Ids strictly increase from front to back and none exceeds the counter. */
  predicate Valid(s: ToastState) {
    && Increasing(s.toasts)
    && (forall i :: 0 <= i < |s.toasts| ==> s.toasts[i].id <= s.lastId)
  }

  /** `prev.filter(t => t.id !== id)`. */
  function RemoveId(toasts: seq<Toast>, id: nat): (r: seq<Toast>)
    ensures |r| <= |toasts|
  {
    if |toasts| == 0 then []
    else
      var rest := RemoveId(toasts[1..], id);
      if toasts[0].id == id then rest else [toasts[0]] + rest
  }

  /** A toast survives the filter exactly when it was there and has another id. */
  lemma {:induction false} RemoveIdMembers(toasts: seq<Toast>, id: nat)
    ensures forall t :: t in RemoveId(toasts, id) <==> t in toasts && t.id != id
  {
    if |toasts| > 0 {
      RemoveIdMembers(toasts[1..], id);
      assert forall t :: t in toasts <==> t == toasts[0] || t in toasts[1..];
    }
  }

  /** Filtering keeps order: it works piecewise on a concatenation. */
  lemma {:induction false} RemoveIdAppend(a: seq<Toast>, b: seq<Toast>, id: nat)
    ensures RemoveId(a + b, id) == RemoveId(a, id) + RemoveId(b, id)
  {
    if |a| == 0 {
      assert a + b == b;
    } else {
      assert (a + b)[0] == a[0];
      assert (a + b)[1..] == a[1..] + b;
      RemoveIdAppend(a[1..], b, id);
    }
  }

  /** Filtering out an id that is not present changes nothing. */
  lemma {:induction false} RemoveAbsentId(toasts: seq<Toast>, id: nat)
    requires forall i :: 0 <= i < |toasts| ==> toasts[i].id != id
    ensures RemoveId(toasts, id) == toasts
  {
    if |toasts| > 0 {
      RemoveAbsentId(toasts[1..], id);
    }
  }

  predicate Increasing(toasts: seq<Toast>) {
    forall i, j :: 0 <= i < j < |toasts| ==> toasts[i].id < toasts[j].id
  }

  /** A toast in front of an increasing list of larger ids keeps it increasing. */
  lemma ConsIncreasing(t: Toast, rest: seq<Toast>)
    requires Increasing(rest)
    requires forall u :: u in rest ==> t.id < u.id
    ensures Increasing([t] + rest)
  {
    var r := [t] + rest;
    forall i, j | 0 <= i < j < |r| ensures r[i].id < r[j].id {
      assert r[j] == rest[j - 1];
      if i > 0 { assert r[i] == rest[i - 1]; }
    }
  }

  /** Filtering keeps the relative order of the survivors, so increasing ids stay increasing. */
  lemma {:induction false} RemoveIdKeepsIncreasing(toasts: seq<Toast>, id: nat)
    requires Increasing(toasts)
    ensures Increasing(RemoveId(toasts, id))
  {
    if |toasts| > 0 {
      var tail := toasts[1..];
      assert Increasing(tail) by {
        forall i, j | 0 <= i < j < |tail| ensures tail[i].id < tail[j].id {
          assert tail[i] == toasts[i + 1] && tail[j] == toasts[j + 1];
        }
      }
      RemoveIdKeepsIncreasing(tail, id);
      RemoveIdMembers(tail, id);
      var rest := RemoveId(tail, id);
      if toasts[0].id != id {
        forall u | u in rest ensures toasts[0].id < u.id {
          var m :| 0 <= m < |tail| && tail[m] == u;
          assert toasts[m + 1] == u;
        }
        ConsIncreasing(toasts[0], rest);
      }
    }
  }

  /** The facts `Dismiss` needs about the filter. */
  lemma RemoveIdFacts(toasts: seq<Toast>, id: nat)
    ensures (forall t :: t in toasts ==> t.id != id) ==> RemoveId(toasts, id) == toasts
    ensures Increasing(toasts) ==> Increasing(RemoveId(toasts, id))
  {
    if forall t :: t in toasts ==> t.id != id {
      RemoveAbsentId(toasts, id);
    }
    if Increasing(toasts) {
      RemoveIdKeepsIncreasing(toasts, id);
    }
  }

  /** The result of `showToast`: the new state and the id handed out. */
  datatype Shown = Shown(state: ToastState, id: nat)

  /**
   * `showToast(message, type = "info")`: takes the next id, larger than every
   * id handed out before, and appends one toast at the end.
   */
  function ShowToast(s: ToastState, message: string, kind: Option<ToastType>): (r: Shown)
    ensures r.id > s.lastId && r.state.lastId == r.id
    ensures Valid(s) ==> forall t :: t in s.toasts ==> t.id < r.id
    ensures |r.state.toasts| == |s.toasts| + 1 && r.state.toasts[..|s.toasts|] == s.toasts
    ensures r.state.toasts[|s.toasts|] == Toast(r.id, message, if kind.Some? then kind.value else Info)
    ensures Valid(s) ==> Valid(r.state)
  {
    var id := s.lastId + 1;
    var t := Toast(id, message, match kind case Some(k) => k case None => Info);
    assert (s.toasts + [t])[..|s.toasts|] == s.toasts;
    Shown(ToastState(s.toasts + [t], id), id)
  }

  /**
   * `dismiss(id)`: every toast with that id goes, the others stay in their
   * order, and the counter is untouched.
   */
  function Dismiss(s: ToastState, id: nat): (r: ToastState)
    ensures r.lastId == s.lastId
    ensures forall t :: t in r.toasts <==> t in s.toasts && t.id != id
    ensures (forall t :: t in s.toasts ==> t.id != id) ==> r == s
    ensures Valid(s) ==> Valid(r)
  {
    RemoveIdFacts(s.toasts, id);
    RemoveIdMembers(s.toasts, id);
    ToastState(RemoveId(s.toasts, id), s.lastId)
  }

  /**
   * In a valid queue ids are unique, so dismissing the id of the toast at
   * position `i` removes exactly that toast and closes the gap.
   */
  lemma DismissRemovesOne(s: ToastState, i: nat)
    requires Valid(s) && i < |s.toasts|
    ensures Dismiss(s, s.toasts[i].id).toasts == s.toasts[..i] + s.toasts[i + 1..]
  {
    var ts := s.toasts;
    var t, before, after := ts[i], ts[..i], ts[i + 1..];
    assert forall k :: 0 <= k < |before| ==> before[k].id != t.id by {
      forall k | 0 <= k < |before| ensures before[k].id != t.id {
        assert before[k] == ts[k];
      }
    }
    assert forall k :: 0 <= k < |after| ==> after[k].id != t.id by {
      forall k | 0 <= k < |after| ensures after[k].id != t.id {
        assert after[k] == ts[i + 1 + k];
      }
    }
    assert ts == before + [t] + after;
    RemoveOnlyOne(before, t, after);
  }

  /** Filtering out an id that only one toast has removes exactly that toast. */
  lemma RemoveOnlyOne(before: seq<Toast>, t: Toast, after: seq<Toast>)
    requires forall k :: 0 <= k < |before| ==> before[k].id != t.id
    requires forall k :: 0 <= k < |after| ==> after[k].id != t.id
    ensures RemoveId(before + [t] + after, t.id) == before + after
  {
    var id := t.id;
    RemoveAbsentId(before, id);
    RemoveAbsentId(after, id);
    assert RemoveId([t], id) == [] by {
      assert [t][1..] == [];
    }
    RemoveIdAppend(before + [t], after, id);
    RemoveIdAppend(before, [t], id);
    assert before + [] == before;
  }

  /** What can happen to the queue: a new toast, a click on a close button, a timer firing. */
  datatype ToastEvent =
    | Show(message: string, kind: Option<ToastType>)
    | DismissClicked(id: nat)
    | TimerFired(id: nat)

  /** One event. The timer's callback filters exactly as `dismiss` does. */
  function Step(s: ToastState, e: ToastEvent): ToastState {
    match e
    case Show(m, k) => ShowToast(s, m, k).state
    case DismissClicked(id) => Dismiss(s, id)
    case TimerFired(id) => Dismiss(s, id)
  }

  /** A sequence of events, in order. */
  function Run(s: ToastState, events: seq<ToastEvent>): ToastState
    decreases |events|
  {
    if |events| == 0 then s else Run(Step(s, events[0]), events[1..])
  }

  /** Every run keeps the queue valid and never lowers the counter. */
  lemma {:induction false} RunPreservesValid(s: ToastState, events: seq<ToastEvent>)
    requires Valid(s)
    ensures Valid(Run(s, events))
    ensures Run(s, events).lastId >= s.lastId
    decreases |events|
  {
    if |events| > 0 {
      RunPreservesValid(Step(s, events[0]), events[1..]);
    }
  }

  /** A timer firing for a toast that was already dismissed does nothing. */
  lemma TimerAfterDismissIsNoOp(s: ToastState, id: nat)
    ensures Step(Step(s, DismissClicked(id)), TimerFired(id)) == Step(s, DismissClicked(id))
  {
  }

  /**
   * A toast shown after any run gets an id that no toast on screen has, nor
   * any toast there was before the run, and that exceeds every id handed out.
   */
  lemma {:induction false} ShownIdsAreFresh(s: ToastState, events: seq<ToastEvent>, m: string, k: Option<ToastType>)
    requires Valid(s)
    ensures var s' := Run(s, events);
      var shown := ShowToast(s', m, k);
      && shown.id > s'.lastId >= s.lastId
      && (forall t :: t in s'.toasts ==> t.id < shown.id)
      && (forall t :: t in s.toasts ==> t.id < shown.id)
  {
    RunPreservesValid(s, events);
  }
}
