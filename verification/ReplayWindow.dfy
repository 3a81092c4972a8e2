/** The request ids the bridge remembers (`RecentRequestIds` in desktop_bridge.rs). */
module ReplayWindow {
  import opened Bytes

  const MAX_SEEN_REQUEST_IDS := 4096

  /** The last recorded ids, the ones still refused. */
  function Window(history: seq<Text>): (w: seq<Text>)
    ensures |w| == if |history| < MAX_SEEN_REQUEST_IDS then |history| else MAX_SEEN_REQUEST_IDS
    ensures forall k | 0 <= k < |w| :: w[k] == history[|history| - |w| + k]
  {
    if |history| <= MAX_SEEN_REQUEST_IDS then history else history[|history| - MAX_SEEN_REQUEST_IDS..]
  }

  /** Every id was recorded while it was out of the window. */
  ghost predicate Fresh(history: seq<Text>) {
    forall j | 0 <= j < |history| :: history[j] !in Window(history[..j])
  }

  ghost predicate Distinct(ids: seq<Text>) {
    forall i, j | 0 <= i < j < |ids| :: ids[i] != ids[j]
  }

  lemma FreshExtended(history: seq<Text>, id: Text)
    requires Fresh(history) && id !in Window(history)
    ensures Fresh(history + [id])
  {
    var h := history + [id];
    forall j | 0 <= j < |h| ensures h[j] !in Window(h[..j]) {
      assert h[..j] == history[..j];
      assert history[..|history|] == history;
    }
  }

  /** Equal recorded ids are more than a whole window apart. */
  lemma RepeatsAreFarApart(history: seq<Text>, i: nat, j: nat)
    requires Fresh(history) && i < j < |history| && history[i] == history[j]
    ensures j - i > MAX_SEEN_REQUEST_IDS
  {
    var w := Window(history[..j]);
    assert forall k | j - |w| <= k < j :: w[k - (j - |w|)] == history[k];
    assert history[j] !in w;
  }

  lemma {:induction false} WindowDistinct(history: seq<Text>)
    requires Fresh(history)
    ensures Distinct(Window(history))
  {
    var w := Window(history);
    forall i, j | 0 <= i < j < |w| ensures w[i] != w[j] {
      var base := |history| - |w|;
      if history[base + i] == history[base + j] {
        RepeatsAreFarApart(history, base + i, base + j);
      }
    }
  }

  lemma WindowSlides(history: seq<Text>, id: Text)
    ensures Window(history + [id]) == Window(Window(history) + [id])
    ensures |history| >= MAX_SEEN_REQUEST_IDS ==> Window(history + [id]) == Window(history)[1..] + [id]
    ensures |history| < MAX_SEEN_REQUEST_IDS ==> Window(history + [id]) == Window(history) + [id]
  {}

  class RecentRequestIds {
    var order: seq<Text>
    var values: set<Text>
    ghost var history: seq<Text>

    ghost predicate Valid()
      reads this
    {
      && Fresh(history)
      && order == Window(history)
      && Distinct(order)
      && values == set id | id in order
    }

    constructor ()
      ensures Valid() && history == []
    {
      order, values, history := [], {}, [];
    }

    /** `record_request_id`: refused exactly when the id is among the last
        recorded ones, and then nothing changes. */
    method Record(id: Text) returns (recorded: bool)
      requires Valid()
      modifies this
      ensures Valid()
      ensures recorded <==> id !in Window(old(history))
      ensures history == if recorded then old(history) + [id] else old(history)
      ensures order == Window(history)
    {
      if id in values {
        return false;
      }
      FreshExtended(history, id);
      WindowDistinct(history + [id]);
      WindowSlides(history, id);
      if |order| == MAX_SEEN_REQUEST_IDS {
        var expired := order[0];
        order := order[1..];
        values := values - {expired};
      }
      order := order + [id];
      values := values + {id};
      history := history + [id];
      return true;
    }
  }
}
