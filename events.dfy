/** The parsed document as the reader sees it: the stream of (start, end)
    events that an incremental parse delivers, each carrying its element.
    Elements are opaque apart from their tag and their serialized text. */
module XmlEvents {

  datatype Kind = Start | End

  /** An element: its tag and the text its serialization produces. */
  datatype Element = Element(tag: string, text: string)

  datatype Event = Event(kind: Kind, elem: Element)

  /** The filter of the element stream: an end event whose tag is requested. */
  predicate IsMatch(ev: Event, tags: seq<string>)
  {
    ev.kind == End && ev.elem.tag in tags
  }

  /** The elements the element stream yields from `evs`, in event order. */
  function Matched(evs: seq<Event>, tags: seq<string>): (r: seq<Element>)
    ensures |r| <= |evs|
  {
    if evs == [] then []
    else (if IsMatch(evs[0], tags) then [evs[0].elem] else []) + Matched(evs[1..], tags)
  }

  /** The positions of the matching events of `evs`, in increasing order, and
      every such position. */
  function MatchIndices(evs: seq<Event>, tags: seq<string>): (r: seq<nat>)
    ensures forall j :: 0 <= j < |r| ==> r[j] < |evs| && IsMatch(evs[r[j]], tags)
    ensures forall j, k :: 0 <= j < k < |r| ==> r[j] < r[k]
    ensures forall i :: 0 <= i < |evs| && IsMatch(evs[i], tags) ==> i in r
  {
    if evs == [] then []
    else
      var init := evs[..|evs| - 1];
      var r' := MatchIndices(init, tags);
      assert forall j :: 0 <= j < |r'| ==> evs[r'[j]] == init[r'[j]];
      r' + (if IsMatch(evs[|evs| - 1], tags) then [|evs| - 1] else [])
  }

  /** The set of tags of all events of `evs`. */
  function TagsOf(evs: seq<Event>): set<string>
  {
    if evs == [] then {}
    else TagsOf(evs[..|evs| - 1]) + {evs[|evs| - 1].elem.tag}
  }

  /** A tag is collected exactly when some event carries it. */
  lemma {:induction false} TagsOfSpec(evs: seq<Event>)
    ensures forall t :: t in TagsOf(evs) <==> exists i :: 0 <= i < |evs| && evs[i].elem.tag == t
  {
    if evs != [] {
      var init := evs[..|evs| - 1];
      TagsOfSpec(init);
      forall t | t in TagsOf(evs)
        ensures exists i :: 0 <= i < |evs| && evs[i].elem.tag == t
      {
        if t in TagsOf(init) {
          var i :| 0 <= i < |init| && init[i].elem.tag == t;
          assert evs[i] == init[i];
        } else {
          assert evs[|evs| - 1].elem.tag == t;
        }
      }
      forall t | exists i :: 0 <= i < |evs| && evs[i].elem.tag == t
        ensures t in TagsOf(evs)
      {
        var i :| 0 <= i < |evs| && evs[i].elem.tag == t;
        if i < |init| {
          assert init[i] == evs[i];
        }
      }
    }
  }

  /** The stream over a concatenation is the concatenation of the streams. */
  lemma {:induction false} MatchedAppend(a: seq<Event>, b: seq<Event>, tags: seq<string>)
    ensures Matched(a + b, tags) == Matched(a, tags) + Matched(b, tags)
  {
    if a != [] {
      assert (a + b)[1..] == a[1..] + b;
      MatchedAppend(a[1..], b, tags);
    } else {
      assert a + b == b;
    }
  }

  /** Advancing the cursor over one event removes that event's contribution
      from the front of the stream. */
  lemma MatchedStep(evs: seq<Event>, p: nat, tags: seq<string>)
    requires p < |evs|
    ensures Matched(evs[p..], tags) ==
      (if IsMatch(evs[p], tags) then [evs[p].elem] else []) + Matched(evs[p + 1..], tags)
  {
    assert evs[p..][1..] == evs[p + 1..];
  }

  /** Passing over an event that does not match keeps a stretch without
      matches free of them. */
  lemma SkipStep(evs: seq<Event>, from: nat, p: nat, tags: seq<string>)
    requires from <= p < |evs| && !IsMatch(evs[p], tags) && Matched(evs[from..p], tags) == []
    ensures Matched(evs[from..p + 1], tags) == []
  {
    assert evs[from..p + 1] == evs[from..p] + [evs[p]];
    MatchedAppend(evs[from..p], [evs[p]], tags);
  }

  /** A suffix that starts with `a` then `ys` places `a` at `k`. */
  lemma SuffixCons<T>(xs: seq<T>, k: nat, a: T, ys: seq<T>)
    requires k <= |xs| && xs[k..] == [a] + ys
    ensures k < |xs| && xs[k] == a && xs[k + 1..] == ys
  {
    assert xs[k..][0] == a;
    assert xs[k..][1..] == xs[k + 1..];
  }

  /** The stream yields exactly the elements of the matching events, in event
      order, none skipped and none repeated: its `j`-th element is the element
      of the `j`-th matching event. */
  lemma {:induction false} MatchedByIndices(evs: seq<Event>, tags: seq<string>)
    ensures |Matched(evs, tags)| == |MatchIndices(evs, tags)|
    ensures forall j :: 0 <= j < |Matched(evs, tags)| ==>
      Matched(evs, tags)[j] == evs[MatchIndices(evs, tags)[j]].elem
  {
    if evs != [] {
      var init, last := evs[..|evs| - 1], evs[|evs| - 1];
      assert evs == init + [last];
      MatchedAppend(init, [last], tags);
      MatchedByIndices(init, tags);
      var m, mi := Matched(init, tags), MatchIndices(init, tags);
      assert Matched([last], tags) == (if IsMatch(last, tags) then [last.elem] else []);
      forall j | 0 <= j < |m|
        ensures Matched(evs, tags)[j] == evs[MatchIndices(evs, tags)[j]].elem
      {
        assert evs[mi[j]] == init[mi[j]];
      }
    }
  }

  /** A start event never contributes: a pass that begins at the root's start
      event yields the same elements as one that begins just after it. */
  lemma MatchedSkipsStart(evs: seq<Event>, tags: seq<string>)
    requires |evs| > 0 && evs[0].kind == Start
    ensures Matched(evs, tags) == Matched(evs[1..], tags)
  {
  }
}
