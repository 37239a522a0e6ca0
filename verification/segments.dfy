/** The segment builder of `OCRWorker.run`: consecutive samples showing the
    same non-empty text are merged into one timed subtitle segment. */
module Segments {

  /** A subtitle segment; `text == ""` marks "no segment open". */
  datatype Segment = Segment(text: string, start: nat, end: nat)

  /** One processed sample: its timestamp in milliseconds and its text. */
  datatype Observation = Observation(time: nat, text: string)

  /** The value `current_sub` is reset to: `{"text": "", "start": 0, "end": 0}`. */
  const NoSegment: Segment := Segment("", 0, 0)

  /** The builder's state: the open segment `current_sub` and the closed
      segments `subtitles`. */
  datatype Builder = Builder(current: Segment, subtitles: seq<Segment>)

  const Initial: Builder := Builder(NoSegment, [])

  /** One observation: the same non-empty text extends the open segment, a
      different non-empty text closes it (when one is open) and opens a new
      one, and an empty text closes it. */
  function Step(b: Builder, o: Observation): Builder
  {
    if o.text != "" then
      if b.current.text == o.text then
        Builder(b.current.(end := o.time), b.subtitles)
      else
        Builder(Segment(o.text, o.time, o.time),
                if b.current.text != "" then b.subtitles + [b.current] else b.subtitles)
    else if b.current.text != "" then
      Builder(NoSegment, b.subtitles + [b.current])
    else
      b
  }

  /** The builder after a whole stream of observations. */
  function Feed(b: Builder, obs: seq<Observation>): Builder
    decreases |obs|
  {
    if obs == [] then b else Feed(Step(b, obs[0]), obs[1..])
  }

  lemma {:induction false} FeedAppend(b: Builder, obs: seq<Observation>, o: Observation)
    ensures Feed(b, obs + [o]) == Step(Feed(b, obs), o)
    decreases |obs|
  {
    if obs != [] {
      assert (obs + [o])[1..] == obs[1..] + [o];
      FeedAppend(Step(b, obs[0]), obs[1..], o);
    }
  }

  /** End of stream: the open segment, if any, is appended. */
  function Flush(b: Builder): seq<Segment>
  {
    if b.current.text != "" then b.subtitles + [b.current] else b.subtitles
  }

  /** The segments the builder produces from a stream of observations. */
  function BuildSegments(obs: seq<Observation>): seq<Segment>
  {
    Flush(Feed(Initial, obs))
  }

  // ---------------------------------------------------------------------
  // An independent description: the segments are the maximal runs of
  // equal non-empty texts.

  /** How many observations at the front of `obs` show `text`. */
  function RunLength(obs: seq<Observation>, text: string): (n: nat)
    ensures n <= |obs|
    ensures forall i :: 0 <= i < n ==> obs[i].text == text
    ensures n < |obs| ==> obs[n].text != text
  {
    if obs == [] || obs[0].text != text then 0 else 1 + RunLength(obs[1..], text)
  }

  /** Each maximal run of one non-empty text becomes a segment from the
      run's first timestamp to its last. */
  function Runs(obs: seq<Observation>): seq<Segment>
    decreases |obs|
  {
    if obs == [] then []
    else if obs[0].text == "" then Runs(obs[1..])
    else
      var n := RunLength(obs, obs[0].text);
      [Segment(obs[0].text, obs[0].time, obs[n - 1].time)] + Runs(obs[n..])
  }

  /** What an open segment `c` becomes once `obs` follows it: it absorbs the
      run of its own text at the front, and the runs after that follow. */
  function Pending(c: Segment, obs: seq<Observation>): seq<Segment>
  {
    if c.text == "" then Runs(obs)
    else
      var n := RunLength(obs, c.text);
      [Segment(c.text, c.start, if n == 0 then c.end else obs[n - 1].time)] + Runs(obs[n..])
  }

  lemma {:induction false} FeedMatchesRuns(b: Builder, obs: seq<Observation>)
    ensures Flush(Feed(b, obs)) == b.subtitles + Pending(b.current, obs)
    decreases |obs|
  {
    var c := b.current;
    if obs == [] {
      assert Pending(c, obs) == (if c.text == "" then [] else [c]);
    } else {
      var b' := Step(b, obs[0]);
      FeedMatchesRuns(b', obs[1..]);
      StepMatchesRuns(b, obs);
    }
  }

  /** One step of the builder moves the first observation from the stream
      into the state without changing what is still to come. */
  lemma StepMatchesRuns(b: Builder, obs: seq<Observation>)
    requires obs != []
    ensures var b' := Step(b, obs[0]);
            b'.subtitles + Pending(b'.current, obs[1..]) == b.subtitles + Pending(b.current, obs)
  {
    var c, o := b.current, obs[0];
    if o.text != "" && c.text == o.text {
      ExtendMatchesRuns(c, obs);
    } else if o.text != "" {
      OpenMatchesRuns(obs);
      if c.text != "" {
        ClosedBeforeRuns(c, obs);
        assert b.subtitles + Pending(c, obs) == (b.subtitles + [c]) + Runs(obs);
      }
    } else {
      assert Runs(obs) == Runs(obs[1..]);
      if c.text != "" {
        ClosedBeforeRuns(c, obs);
        assert b.subtitles + Pending(c, obs) == (b.subtitles + [c]) + Runs(obs);
      }
    }
  }

  lemma ExtendMatchesRuns(c: Segment, obs: seq<Observation>)
    requires obs != [] && c.text != "" && obs[0].text == c.text
    ensures Pending(c.(end := obs[0].time), obs[1..]) == Pending(c, obs)
  {
    var rest := obs[1..];
    var n' := RunLength(rest, c.text);
    assert RunLength(obs, c.text) == 1 + n';
    assert obs[1 + n'..] == rest[n'..];
  }

  lemma OpenMatchesRuns(obs: seq<Observation>)
    requires obs != [] && obs[0].text != ""
    ensures Pending(Segment(obs[0].text, obs[0].time, obs[0].time), obs[1..]) == Runs(obs)
  {
    var rest := obs[1..];
    var n' := RunLength(rest, obs[0].text);
    assert RunLength(obs, obs[0].text) == 1 + n';
    assert obs[1 + n'..] == rest[n'..];
  }

  lemma ClosedBeforeRuns(c: Segment, obs: seq<Observation>)
    requires obs != [] && c.text != "" && obs[0].text != c.text
    ensures Pending(c, obs) == [c] + Runs(obs)
  {
    assert RunLength(obs, c.text) == 0;
    assert obs[0..] == obs;
  }

  /** The state machine produces exactly the maximal runs of equal non-empty
      texts, each from its first to its last timestamp. */
  lemma BuildSegmentsAreRuns(obs: seq<Observation>)
    ensures BuildSegments(obs) == Runs(obs)
  {
    FeedMatchesRuns(Initial, obs);
  }

  // ---------------------------------------------------------------------
  // Ordering: with strictly increasing timestamps the segments are
  // non-empty, well formed and in time order.

  predicate StrictlyIncreasing(obs: seq<Observation>)
  {
    forall i, j :: 0 <= i < j < |obs| ==> obs[i].time < obs[j].time
  }

  /** Every segment has text and `start <= end`, and each ends before the
      next one starts. */
  predicate Chronological(segs: seq<Segment>)
  {
    && (forall k :: 0 <= k < |segs| ==> segs[k].text != "" && segs[k].start <= segs[k].end)
    && (forall k :: 0 <= k < |segs| - 1 ==> segs[k].end < segs[k + 1].start)
  }

  /** What holds of the builder after observations up to time `last` (-1
      before the first one). */
  predicate Invariant(b: Builder, last: int)
  {
    && Chronological(b.subtitles)
    && (b.subtitles != [] ==> b.subtitles[|b.subtitles| - 1].end <= last)
    && (b.current.text == "" ==> b.current == NoSegment)
    && (b.current.text != "" ==>
          && b.current.start <= b.current.end <= last
          && (b.subtitles != [] ==> b.subtitles[|b.subtitles| - 1].end < b.current.start))
  }

  /** One later observation keeps the invariant. */
  lemma StepPreservesInvariant(b: Builder, last: int, o: Observation)
    requires Invariant(b, last) && last < o.time
    ensures Invariant(Step(b, o), o.time)
  {
    if b.current.text != "" && b.current.text != o.text {
      AppendChronological(b.subtitles, b.current);
    }
  }

  /** Closing a well-formed segment that starts after the last closed one
      keeps the closed list chronological. */
  lemma AppendChronological(segs: seq<Segment>, c: Segment)
    requires Chronological(segs)
    requires c.text != "" && c.start <= c.end
    requires segs != [] ==> segs[|segs| - 1].end < c.start
    ensures Chronological(segs + [c])
  {
  }

  lemma {:induction false} FeedPreservesInvariant(b: Builder, last: int, obs: seq<Observation>)
    requires Invariant(b, last) && StrictlyIncreasing(obs)
    requires obs != [] ==> last < obs[0].time
    ensures Invariant(Feed(b, obs), if obs == [] then last else obs[|obs| - 1].time)
    decreases |obs|
  {
    if obs != [] {
      StepPreservesInvariant(b, last, obs[0]);
      FeedPreservesInvariant(Step(b, obs[0]), obs[0].time, obs[1..]);
    }
  }

  /** Every segment produced has non-empty text and `start <= end`, and the
      segments come in time order without overlapping. */
  lemma BuildSegmentsChronological(obs: seq<Observation>)
    requires StrictlyIncreasing(obs)
    ensures Chronological(BuildSegments(obs))
  {
    FeedPreservesInvariant(Initial, -1, obs);
  }

  /** In a chronological list every earlier segment ends before every later
      one starts. */
  lemma {:induction false} ChronologicalSorted(segs: seq<Segment>, i: nat, j: nat)
    requires Chronological(segs) && i < j < |segs|
    ensures segs[i].end < segs[j].start && segs[i].start < segs[j].start
    decreases j - i
  {
    if i + 1 < j {
      ChronologicalSorted(segs, i + 1, j);
    }
  }

  // ---------------------------------------------------------------------
  // Worked streams.

  /** Three equal samples followed by an empty one give one segment from the
      first to the last of the three. */
  lemma MergingExample()
    ensures BuildSegments([Observation(0, "A"), Observation(100, "A"), Observation(200, "A"), Observation(300, "")])
            == [Segment("A", 0, 200)]
  {
  }

  /** A change of text closes the first segment; the second is flushed at the
      end of the stream. */
  lemma ChangeExample()
    ensures BuildSegments([Observation(0, "A"), Observation(100, "B")])
            == [Segment("A", 0, 0), Segment("B", 100, 100)]
  {
  }
}
