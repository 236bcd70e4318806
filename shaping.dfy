/**
  The string paths of the cache, as pure functions: stripping whitespace
  before shaping, resolving every shaped glyph in order (`render_string`
  drained to the end), and resolving until the first failure
  (`cache_string`).
 */
module Shaping {
  import opened Types
  import opened Packing

  /** Rust's `char::is_whitespace`: the Unicode `White_Space` property. */
  predicate IsWhitespace(c: char) {
    || ('\t' <= c <= '\r')
    || c == ' '
    || c == '\U{85}'
    || c == '\U{A0}'
    || c == '\U{1680}'
    || ('\U{2000}' <= c <= '\U{200A}')
    || c == '\U{2028}'
    || c == '\U{2029}'
    || c == '\U{202F}'
    || c == '\U{205F}'
    || c == '\U{3000}'
  }

  /** The string with every whitespace character removed and the others kept in order (`String::retain`). */
  function StripWhitespace(s: string): (r: string)
    ensures |r| <= |s|
    ensures forall i | 0 <= i < |r| :: !IsWhitespace(r[i])
    ensures forall c :: c in r <==> c in s && !IsWhitespace(c)
    ensures (forall i | 0 <= i < |s| :: !IsWhitespace(s[i])) ==> r == s
  {
    if s == [] then []
    else if IsWhitespace(s[0]) then StripWhitespace(s[1..])
    else [s[0]] + StripWhitespace(s[1..])
  }

  /** Stripping works piece by piece: it distributes over concatenation. */
  lemma {:induction false} StripConcat(a: string, b: string)
    ensures StripWhitespace(a + b) == StripWhitespace(a) + StripWhitespace(b)
  {
    if a == [] {
      assert a + b == b;
    } else {
      assert (a + b)[0] == a[0] && (a + b)[1..] == a[1..] + b;
      StripConcat(a[1..], b);
    }
  }

  /** Stripping a stripped string changes nothing. */
  lemma StripIdempotent(s: string)
    ensures StripWhitespace(StripWhitespace(s)) == StripWhitespace(s)
  {
  }

  /**
    Regrouping a concatenation. Dafny knows this unaided; the loops call it
    at each step so that the right grouping is at hand without a search.
   */
  lemma ConcatAssoc<T>(a: seq<T>, b: seq<T>, c: seq<T>)
    ensures a + (b + c) == (a + b) + c
  {
  }

  /** No glyph of `gs` would make the source unwrap missing bounds: each is cached or has bounds. */
  predicate Renderable(p: Packer, font: FontProvider, gs: seq<Glyph>) {
    forall i | 0 <= i < |gs| :: gs[i] in p.entries || Sized(font, gs[i])
  }

  lemma RenderableGrows(p: Packer, q: Packer, font: FontProvider, gs: seq<Glyph>)
    requires Renderable(p, font, gs) && p.entries.Keys <= q.entries.Keys
    ensures Renderable(q, font, gs)
  {
  }

  /** Each success in `results` names the region `entries` holds for the glyph it was asked for. */
  predicate StillHeld(gs: seq<Glyph>, results: seq<Result<(Metrics, TextureGlyph)>>, entries: map<Glyph, TextureGlyph>)
    requires |results| == |gs|
  {
    forall i | 0 <= i < |gs| && results[i].Ok? :: gs[i] in entries && entries[gs[i]] == results[i].value.1
  }

  predicate AllCached(gs: seq<Glyph>, entries: map<Glyph, TextureGlyph>) {
    forall i | 0 <= i < |gs| :: gs[i] in entries
  }

  /** What a run over many glyphs does: final state, one result per glyph resolved, texture writes. */
  datatype Trace = Trace(next: Packer, results: seq<Result<(Metrics, TextureGlyph)>>, written: seq<Write>)

  /** Resolve every glyph of `gs` in order, whatever the earlier ones returned (`render_string` drained). */
  function RenderAll(p: Packer, w: nat, h: nat, font: FontProvider, gs: seq<Glyph>): (t: Trace)
    requires Renderable(p, font, gs)
    ensures |t.results| == |gs| && Grows(p.entries, t.next.entries)
    decreases |gs|
  {
    if gs == [] then Trace(p, [], [])
    else
      var s := Resolve(p, w, h, font, gs[0]);
      RenderableGrows(p, s.next, font, gs[1..]);
      var t := RenderAll(s.next, w, h, font, gs[1..]);
      Trace(t.next, [s.result] + t.results, s.written + t.written)
  }

  /** A nonempty run is its first resolve followed by the run of the rest. */
  lemma RenderAllUnfold(p: Packer, w: nat, h: nat, font: FontProvider, gs: seq<Glyph>)
    requires Renderable(p, font, gs) && gs != []
    ensures var s := Resolve(p, w, h, font, gs[0]);
            && Renderable(s.next, font, gs[1..])
            && var t := RenderAll(s.next, w, h, font, gs[1..]);
               RenderAll(p, w, h, font, gs) == Trace(t.next, [s.result] + t.results, s.written + t.written)
  {
    RenderableGrows(p, Resolve(p, w, h, font, gs[0]).next, font, gs[1..]);
  }

  /**
    The drain loop's step: if the whole run equals what was collected so far
    followed by the run of the remaining glyphs, it still does after one more
    glyph is resolved and collected.
   */
  lemma RenderAllAdvance(start: Packer, w: nat, h: nat, font: FontProvider, all: seq<Glyph>,
                         p: Packer, rest: seq<Glyph>, results: seq<Result<(Metrics, TextureGlyph)>>, written: seq<Write>)
    requires Renderable(start, font, all) && Renderable(p, font, rest) && rest != []
    requires var t := RenderAll(p, w, h, font, rest);
             RenderAll(start, w, h, font, all) == Trace(t.next, results + t.results, written + t.written)
    ensures var s := Resolve(p, w, h, font, rest[0]);
            && Renderable(s.next, font, rest[1..])
            && var t := RenderAll(s.next, w, h, font, rest[1..]);
               RenderAll(start, w, h, font, all) == Trace(t.next, (results + [s.result]) + t.results, (written + s.written) + t.written)
  {
    var s := Resolve(p, w, h, font, rest[0]);
    RenderAllUnfold(p, w, h, font, rest);
    var t := RenderAll(s.next, w, h, font, rest[1..]);
    ConcatAssoc(results, [s.result], t.results);
    ConcatAssoc(written, s.written, t.written);
  }

  /** What a run that stops at the first failure does: final state, outcome, texture writes. */
  datatype Warm = Warm(next: Packer, result: Result<()>, written: seq<Write>)

  /**
    No glyph the warm-up reaches would make the source unwrap missing bounds.
    The warm-up stops at the first failure, so the glyphs after it are never
    looked at and need not be renderable.
   */
  predicate WarmRenderable(p: Packer, w: nat, h: nat, font: FontProvider, gs: seq<Glyph>)
    decreases |gs|
  {
    || gs == []
    || (&& (gs[0] in p.entries || Sized(font, gs[0]))
        && var s := Resolve(p, w, h, font, gs[0]);
           s.result.Ok? ==> WarmRenderable(s.next, w, h, font, gs[1..]))
  }

  /** A run every glyph of which is renderable is one the warm-up can take. */
  lemma {:induction false} RenderableWarms(p: Packer, w: nat, h: nat, font: FontProvider, gs: seq<Glyph>)
    requires Renderable(p, font, gs)
    ensures WarmRenderable(p, w, h, font, gs)
    decreases |gs|
  {
    if gs != [] {
      var s := Resolve(p, w, h, font, gs[0]);
      RenderableGrows(p, s.next, font, gs[1..]);
      RenderableWarms(s.next, w, h, font, gs[1..]);
    }
  }

  /** Resolve the glyphs of `gs` in order until one fails (`cache_string`'s short-circuiting collect). */
  function WarmAll(p: Packer, w: nat, h: nat, font: FontProvider, gs: seq<Glyph>): (t: Warm)
    requires WarmRenderable(p, w, h, font, gs)
    ensures Grows(p.entries, t.next.entries)
    decreases |gs|
  {
    if gs == [] then Warm(p, Ok(()), [])
    else
      var s := Resolve(p, w, h, font, gs[0]);
      if s.result.Err? then Warm(s.next, Err(s.result.error), s.written)
      else
        var t := WarmAll(s.next, w, h, font, gs[1..]);
        Warm(t.next, t.result, s.written + t.written)
  }

  /**
    A glyph without bounds after one that is too large for the texture: the
    warm-up fails on the first and never looks at the second.
   */
  lemma WarmStopsBeforeUnsized()
    ensures var font := FontProvider(Alpha, s => [],
                                     g => if g == Glyph(0) then Metrics(Some(Bounds(0, 0, 9, 9))) else Metrics(None),
                                     g => Ok([]));
            var gs := [Glyph(0), Glyph(1)];
            && !Renderable(Empty, font, gs)
            && WarmRenderable(Empty, 8, 4, font, gs)
            && WarmAll(Empty, 8, 4, font, gs) == Warm(Empty, Err(TextureTooSmall), [])
  {
    var font := FontProvider(Alpha, s => [],
                             g => if g == Glyph(0) then Metrics(Some(Bounds(0, 0, 9, 9))) else Metrics(None),
                             g => Ok([]));
    var gs := [Glyph(0), Glyph(1)];
    assert !Sized(font, gs[1]);
    assert Resolve(Empty, 8, 4, font, gs[0]).result == Err(TextureTooSmall);
  }

  /** A nonempty warm-up is its first resolve, then, if that succeeded, the warm-up of the rest. */
  lemma WarmAllUnfold(p: Packer, w: nat, h: nat, font: FontProvider, gs: seq<Glyph>)
    requires WarmRenderable(p, w, h, font, gs) && gs != []
    ensures var s := Resolve(p, w, h, font, gs[0]);
            && (s.result.Err? ==> WarmAll(p, w, h, font, gs) == Warm(s.next, Err(s.result.error), []))
            && (s.result.Ok? ==>
                  && WarmRenderable(s.next, w, h, font, gs[1..])
                  && var t := WarmAll(s.next, w, h, font, gs[1..]);
                     WarmAll(p, w, h, font, gs) == Warm(t.next, t.result, s.written + t.written))
  {
  }

  /** The warm-up loop's step, as `RenderAllAdvance` is the drain loop's. */
  lemma WarmAllAdvance(start: Packer, w: nat, h: nat, font: FontProvider, all: seq<Glyph>,
                       p: Packer, rest: seq<Glyph>, written: seq<Write>)
    requires WarmRenderable(start, w, h, font, all) && WarmRenderable(p, w, h, font, rest) && rest != []
    requires var t := WarmAll(p, w, h, font, rest);
             WarmAll(start, w, h, font, all) == Warm(t.next, t.result, written + t.written)
    ensures rest[0] in p.entries || Sized(font, rest[0])
    ensures var s := Resolve(p, w, h, font, rest[0]);
            && (s.result.Err? ==> WarmAll(start, w, h, font, all) == Warm(s.next, Err(s.result.error), written + s.written))
            && (s.result.Ok? ==>
                  && WarmRenderable(s.next, w, h, font, rest[1..])
                  && var t := WarmAll(s.next, w, h, font, rest[1..]);
                     WarmAll(start, w, h, font, all) == Warm(t.next, t.result, (written + s.written) + t.written))
  {
    var s := Resolve(p, w, h, font, rest[0]);
    WarmAllUnfold(p, w, h, font, rest);
    if s.result.Ok? {
      var t := WarmAll(s.next, w, h, font, rest[1..]);
      ConcatAssoc(written, s.written, t.written);
    }
  }

  /** The index of the first failure among `rs`, or `|rs|` when all succeeded. */
  function FirstError<T>(rs: seq<Result<T>>): (k: nat)
    ensures k <= |rs|
    ensures forall i | 0 <= i < k :: rs[i].Ok?
    ensures k < |rs| ==> rs[k].Err?
  {
    if rs == [] then 0
    else if rs[0].Err? then 0
    else 1 + FirstError(rs[1..])
  }

  /** Running a nonempty prefix of `gs` is resolving its first glyph and then running the rest of the prefix. */
  lemma RenderPrefixStep(p: Packer, w: nat, h: nat, font: FontProvider, gs: seq<Glyph>, j: nat)
    requires Renderable(p, font, gs) && 1 <= j <= |gs|
    ensures var s := Resolve(p, w, h, font, gs[0]);
            && Renderable(s.next, font, gs[1..][..j - 1])
            && var t := RenderAll(s.next, w, h, font, gs[1..][..j - 1]);
               RenderAll(p, w, h, font, gs[..j]) == Trace(t.next, [s.result] + t.results, s.written + t.written)
  {
    var s := Resolve(p, w, h, font, gs[0]);
    assert gs[..j][0] == gs[0];
    assert gs[..j][1..] == gs[1..][..j - 1];
    RenderableGrows(p, s.next, font, gs[1..][..j - 1]);
  }

  lemma FirstErrorCons<T>(x: Result<T>, rs: seq<Result<T>>)
    ensures FirstError([x] + rs) == if x.Err? then 0 else 1 + FirstError(rs)
  {
    assert ([x] + rs)[1..] == rs;
  }

  /** The glyphs a call that stops after the first failure, the one at `k` if any, gets to resolve. */
  function Attempted(gs: seq<Glyph>, k: nat): (r: seq<Glyph>)
    requires k <= |gs|
    ensures |r| == (if k < |gs| then k + 1 else k) && r <= gs
  {
    gs[..if k < |gs| then k + 1 else k]
  }

  /**
    `cache_string` is `render_string` cut short: it succeeds exactly when every
    glyph would succeed; otherwise it returns the first failure, and it leaves
    the state and the texture as if only the glyphs up to and including the
    failing one had been resolved.
   */
  ghost predicate StopsAtFirstError(p: Packer, w: nat, h: nat, font: FontProvider, gs: seq<Glyph>)
    requires Renderable(p, font, gs)
  {
    FirstErrorReturned(p, w, h, font, gs) && StateAfterFirstError(p, w, h, font, gs)
  }

  /** The warm-up succeeds exactly when every glyph would; otherwise it returns the first failure. */
  ghost predicate FirstErrorReturned(p: Packer, w: nat, h: nat, font: FontProvider, gs: seq<Glyph>)
    requires Renderable(p, font, gs)
  {
    RenderableWarms(p, w, h, font, gs);
    var r := RenderAll(p, w, h, font, gs);
    var k := FirstError(r.results);
    var t := WarmAll(p, w, h, font, gs);
    && (t.result.Ok? <==> k == |gs|)
    && (k < |gs| ==> t.result == Err(r.results[k].error))
  }

  /** The warm-up leaves state and texture as resolving the glyphs up to the first failure does. */
  ghost predicate StateAfterFirstError(p: Packer, w: nat, h: nat, font: FontProvider, gs: seq<Glyph>)
    requires Renderable(p, font, gs)
  {
    RenderableWarms(p, w, h, font, gs);
    var k := FirstError(RenderAll(p, w, h, font, gs).results);
    var t := WarmAll(p, w, h, font, gs);
    var done := RenderAll(p, w, h, font, Attempted(gs, k));
    t.next == done.next && t.written == done.written
  }

  /** When the first glyph fails, both runs stop there in the same state. */
  lemma StopsAtFirstErrorHead(p: Packer, w: nat, h: nat, font: FontProvider, gs: seq<Glyph>)
    requires Renderable(p, font, gs) && gs != [] && Resolve(p, w, h, font, gs[0]).result.Err?
    ensures StopsAtFirstError(p, w, h, font, gs)
  {
    var s := Resolve(p, w, h, font, gs[0]);
    RenderAllUnfold(p, w, h, font, gs);
    RenderableWarms(p, w, h, font, gs);
    WarmAllUnfold(p, w, h, font, gs);
    var rest := RenderAll(s.next, w, h, font, gs[1..]);
    FirstErrorCons(s.result, rest.results);
    RenderPrefixStep(p, w, h, font, gs, 1);
  }

  /** When the first glyph succeeds, the first failure of the whole run is one past that of the rest. */
  lemma FirstErrorShift(p: Packer, w: nat, h: nat, font: FontProvider, gs: seq<Glyph>)
    requires Renderable(p, font, gs) && gs != []
    requires Resolve(p, w, h, font, gs[0]).result.Ok?
    ensures var s := Resolve(p, w, h, font, gs[0]);
            && Renderable(s.next, font, gs[1..])
            && var rest := RenderAll(s.next, w, h, font, gs[1..]).results;
               var all := RenderAll(p, w, h, font, gs).results;
               && FirstError(all) == FirstError(rest) + 1
               && (FirstError(rest) < |rest| ==> all[FirstError(all)] == rest[FirstError(rest)])
  {
    var s := Resolve(p, w, h, font, gs[0]);
    RenderAllUnfold(p, w, h, font, gs);
    var rest := RenderAll(s.next, w, h, font, gs[1..]);
    FirstErrorCons(s.result, rest.results);
  }

  lemma FirstErrorReturnedTail(p: Packer, w: nat, h: nat, font: FontProvider, gs: seq<Glyph>)
    requires Renderable(p, font, gs) && gs != []
    requires var s := Resolve(p, w, h, font, gs[0]);
             s.result.Ok? && Renderable(s.next, font, gs[1..]) && FirstErrorReturned(s.next, w, h, font, gs[1..])
    ensures FirstErrorReturned(p, w, h, font, gs)
  {
    RenderableWarms(p, w, h, font, gs);
    WarmAllUnfold(p, w, h, font, gs);
    FirstErrorShift(p, w, h, font, gs);
  }

  /** The glyphs attempted after a first success are the first glyph followed by those attempted in the rest. */
  lemma AttemptedStep(gs: seq<Glyph>, k: nat)
    requires gs != [] && k < |gs|
    ensures Attempted(gs, k + 1) == [gs[0]] + Attempted(gs[1..], k)
  {
  }

  /** Running the glyphs attempted after a first success is resolving the first and then running those attempted in the rest. */
  lemma RenderAttemptedStep(p: Packer, w: nat, h: nat, font: FontProvider, gs: seq<Glyph>, k: nat)
    requires Renderable(p, font, gs) && gs != [] && k < |gs|
    ensures var s := Resolve(p, w, h, font, gs[0]);
            && Renderable(s.next, font, Attempted(gs[1..], k))
            && var d := RenderAll(s.next, w, h, font, Attempted(gs[1..], k));
               RenderAll(p, w, h, font, Attempted(gs, k + 1)) == Trace(d.next, [s.result] + d.results, s.written + d.written)
  {
    var a := Attempted(gs, k + 1);
    AttemptedStep(gs, k);
    assert a[0] == gs[0] && a[1..] == Attempted(gs[1..], k);
    assert Renderable(p, font, a);
    RenderAllUnfold(p, w, h, font, a);
  }

  lemma StateAfterFirstErrorTail(p: Packer, w: nat, h: nat, font: FontProvider, gs: seq<Glyph>)
    requires Renderable(p, font, gs) && gs != []
    requires var s := Resolve(p, w, h, font, gs[0]);
             s.result.Ok? && Renderable(s.next, font, gs[1..]) && StateAfterFirstError(s.next, w, h, font, gs[1..])
    ensures StateAfterFirstError(p, w, h, font, gs)
  {
    var s := Resolve(p, w, h, font, gs[0]);
    RenderableWarms(p, w, h, font, gs);
    WarmAllUnfold(p, w, h, font, gs);
    FirstErrorShift(p, w, h, font, gs);
    var k' := FirstError(RenderAll(s.next, w, h, font, gs[1..]).results);
    RenderAttemptedStep(p, w, h, font, gs, k');
  }

  lemma {:induction false} WarmIsRenderUntilFirstError(p: Packer, w: nat, h: nat, font: FontProvider, gs: seq<Glyph>)
    requires Renderable(p, font, gs)
    ensures StopsAtFirstError(p, w, h, font, gs)
    decreases |gs|
  {
    if gs == [] {
      assert gs[..0] == gs;
    } else if Resolve(p, w, h, font, gs[0]).result.Err? {
      StopsAtFirstErrorHead(p, w, h, font, gs);
    } else {
      var s := Resolve(p, w, h, font, gs[0]);
      RenderableGrows(p, s.next, font, gs[1..]);
      WarmIsRenderUntilFirstError(s.next, w, h, font, gs[1..]);
      FirstErrorReturnedTail(p, w, h, font, gs);
      StateAfterFirstErrorTail(p, w, h, font, gs);
    }
  }

  /** Resolving a run of glyphs keeps the packer invariant. */
  lemma {:induction false} RenderAllPreservesPacked(p: Packer, w: nat, h: nat, font: FontProvider, gs: seq<Glyph>)
    requires Packed(p, w, h) && Renderable(p, font, gs)
    ensures Packed(RenderAll(p, w, h, font, gs).next, w, h)
    decreases |gs|
  {
    if gs != [] {
      var s := Resolve(p, w, h, font, gs[0]);
      ResolvePreservesPacked(p, w, h, font, gs[0]);
      RenderableGrows(p, s.next, font, gs[1..]);
      RenderAllPreservesPacked(s.next, w, h, font, gs[1..]);
    }
  }

  /** Warming a cache with a run of glyphs keeps the packer invariant. */
  lemma {:induction false} WarmAllPreservesPacked(p: Packer, w: nat, h: nat, font: FontProvider, gs: seq<Glyph>)
    requires Packed(p, w, h) && WarmRenderable(p, w, h, font, gs)
    ensures Packed(WarmAll(p, w, h, font, gs).next, w, h)
    decreases |gs|
  {
    if gs != [] {
      var s := Resolve(p, w, h, font, gs[0]);
      ResolvePreservesPacked(p, w, h, font, gs[0]);
      if s.result.Ok? {
        WarmAllPreservesPacked(s.next, w, h, font, gs[1..]);
      }
    }
  }

  /** Every region a run hands out is still the one the table holds at the end of the run. */
  lemma {:induction false} RenderAllStillHeld(p: Packer, w: nat, h: nat, font: FontProvider, gs: seq<Glyph>)
    requires Renderable(p, font, gs)
    ensures var t := RenderAll(p, w, h, font, gs); StillHeld(gs, t.results, t.next.entries)
    decreases |gs|
  {
    if gs != [] {
      var s := Resolve(p, w, h, font, gs[0]);
      RenderAllUnfold(p, w, h, font, gs);
      RenderAllStillHeld(s.next, w, h, font, gs[1..]);
      var t := RenderAll(s.next, w, h, font, gs[1..]);
      var all := RenderAll(p, w, h, font, gs);
      forall i | 0 <= i < |gs| && all.results[i].Ok?
        ensures gs[i] in all.next.entries && all.next.entries[gs[i]] == all.results[i].value.1
      {
        if i == 0 {
          assert all.results[0] == s.result;
        } else {
          assert all.results[i] == t.results[i - 1] && gs[i] == gs[1..][i - 1];
        }
      }
    }
  }

  /** A warm-up that succeeds leaves every glyph of the run cached. */
  lemma {:induction false} WarmAllCachesAll(p: Packer, w: nat, h: nat, font: FontProvider, gs: seq<Glyph>)
    requires WarmRenderable(p, w, h, font, gs)
    ensures var t := WarmAll(p, w, h, font, gs); t.result.Ok? ==> AllCached(gs, t.next.entries)
    decreases |gs|
  {
    if gs != [] {
      var s := Resolve(p, w, h, font, gs[0]);
      WarmAllUnfold(p, w, h, font, gs);
      if s.result.Ok? {
        WarmAllCachesAll(s.next, w, h, font, gs[1..]);
        var t := WarmAll(s.next, w, h, font, gs[1..]);
        forall i | 0 <= i < |gs| && t.result.Ok?
          ensures gs[i] in t.next.entries
        {
          if i > 0 {
            assert gs[i] == gs[1..][i - 1];
          }
        }
      }
    }
  }
}
