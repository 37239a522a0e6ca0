/** `OCRWorker.write_srt`: drop flicker segments, number the rest from 1 and
    lay them out as SubRip blocks. Only the produced text is modelled; opening
    and writing the file is not. */
module SrtWriter {
  import opened PyText
  import opened SrtTime
  import opened Segments

  /** Segments shorter than this many milliseconds are OCR flicker. */
  const MinDurationMs: int := 100

  /** A segment is written unless `end - start < 100`. */
  predicate Survives(s: Segment)
  {
    s.end - s.start >= MinDurationMs
  }

  /** The segments that are written, in their original order. */
  function Survivors(subs: seq<Segment>): seq<Segment>
  {
    if subs == [] then []
    else
      var last := subs[|subs| - 1];
      Survivors(subs[..|subs| - 1]) + (if Survives(last) then [last] else [])
  }

  /** The timing line of a segment: `start --> end`. */
  function TimingLine(s: Segment): string
  {
    MsToSrtTime(s.start) + " --> " + MsToSrtTime(s.end)
  }

  /** One block: `idx`, the timing line, the text, and a blank line. */
  function Block(idx: nat, s: Segment): string
  {
    NatToString(idx) + "\n" + TimingLine(s) + "\n" + s.text + "\n\n"
  }

  /** The blocks of `segs`, numbered consecutively from `first`; `render`
      lays out one block from its index and its segment. */
  function Blocks(segs: seq<Segment>, first: nat, render: (nat, Segment) -> string): string
  {
    if segs == [] then "" else render(first, segs[0]) + Blocks(segs[1..], first + 1, render)
  }

  /** The text `write_srt` passes to `f.write`; text mode may still turn each
      `\n` into the platform's line separator. */
  function SrtText(subs: seq<Segment>): string
  {
    Blocks(Survivors(subs), 1, Block)
  }

  /** `write_srt`: the SubRip text of `subs`. */
  method WriteSrt(subs: seq<Segment>) returns (contents: string)
    ensures contents == SrtText(subs)
  {
    contents := WriteBlocks(subs, Block);
  }

  /** The loop of `write_srt`, with its running index `idx`; `render` lays out
      one block. */
  method WriteBlocks(subs: seq<Segment>, render: (nat, Segment) -> string) returns (contents: string)
    ensures contents == Blocks(Survivors(subs), 1, render)
  {
    contents := "";
    var idx: nat := 1;
    var i := 0;
    while i < |subs|
      invariant 0 <= i <= |subs|
      invariant idx == |Survivors(subs[..i])| + 1
      invariant contents == Blocks(Survivors(subs[..i]), 1, render)
    {
      var s := subs[i];
      SurvivorsSnoc(subs, i);
      if s.end - s.start < MinDurationMs {
        i := i + 1;
        continue;
      }
      BlocksAppend(Survivors(subs[..i]), s, 1, render);
      contents := contents + render(idx, s);
      idx := idx + 1;
      i := i + 1;
    }
    assert subs[..|subs|] == subs;
  }

  /** One more segment adds itself to the survivors exactly when it lasts
      long enough. */
  lemma SurvivorsSnoc(subs: seq<Segment>, i: nat)
    requires i < |subs|
    ensures Survives(subs[i]) ==> Survivors(subs[..i + 1]) == Survivors(subs[..i]) + [subs[i]]
    ensures !Survives(subs[i]) ==> Survivors(subs[..i + 1]) == Survivors(subs[..i])
  {
    assert subs[..i + 1][..i] == subs[..i];
  }

  /** Numbering runs on without gaps across a concatenation. */
  lemma {:induction false} BlocksConcat(a: seq<Segment>, b: seq<Segment>, first: nat, render: (nat, Segment) -> string)
    ensures Blocks(a + b, first, render) == Blocks(a, first, render) + Blocks(b, first + |a|, render)
    decreases |a|
  {
    if a == [] {
      assert a + b == b;
    } else {
      assert (a + b)[1..] == a[1..] + b;
      BlocksConcat(a[1..], b, first + 1, render);
      assert (a + b)[0] == a[0];
    }
  }

  /** The block appended after `k` blocks numbered from `first` gets index
      `first + k`. */
  lemma BlocksAppend(segs: seq<Segment>, s: Segment, first: nat, render: (nat, Segment) -> string)
    ensures Blocks(segs + [s], first, render) == Blocks(segs, first, render) + render(first + |segs|, s)
  {
    BlocksConcat(segs, [s], first, render);
    assert [s][1..] == [];
  }

  /** The `k`-th written segment (from 0) gets index `k + 1`, and its block
      sits between those of the segments before and after it. */
  lemma BlockNumbering(segs: seq<Segment>, k: nat, render: (nat, Segment) -> string)
    requires k < |segs|
    ensures Blocks(segs, 1, render)
            == Blocks(segs[..k], 1, render) + render(k + 1, segs[k]) + Blocks(segs[k + 1..], k + 2, render)
  {
    assert segs == segs[..k] + segs[k..];
    BlocksConcat(segs[..k], segs[k..], 1, render);
    assert segs[k..][1..] == segs[k + 1..];
  }

  /** Filtering a concatenation is concatenating the filtered parts, so the
      survivors keep their relative order. */
  lemma {:induction false} SurvivorsConcat(a: seq<Segment>, b: seq<Segment>)
    ensures Survivors(a + b) == Survivors(a) + Survivors(b)
    decreases |b|
  {
    if b == [] {
      assert a + b == a;
    } else {
      var b' := b[..|b| - 1];
      assert (a + b)[..|a + b| - 1] == a + b';
      SurvivorsConcat(a, b');
    }
  }

  /** A segment is written exactly when it is in the input and lasts at least
      100 ms. */
  lemma {:induction false} SurvivorsExactly(subs: seq<Segment>, s: Segment)
    ensures s in Survivors(subs) <==> s in subs && Survives(s)
  {
    if subs != [] {
      var init := subs[..|subs| - 1];
      SurvivorsExactly(init, s);
      assert subs == init + [subs[|subs| - 1]];
    }
  }

  /** The flicker bound is inclusive: exactly 100 ms is kept, 99 ms is not. */
  lemma FlickerBoundary(text: string, start: nat)
    ensures Survives(Segment(text, start, start + 100))
    ensures !Survives(Segment(text, start, start + 99))
  {
  }
}
