/** Filters and transformers in front of the store. */
module ContentProcessing {
  import opened ByteStrings
  import opened Sequences
  import opened ClipboardTypes

  type Transformer = Content -> Option<Content>
  type Filter = Content -> bool

  /** `existing` rewrites a JSON file list to its accessible files, or leaves it alone. */
  datatype Processor = Processor(
    maxSize: int, transformers: seq<Transformer>, filters: seq<Filter>, existing: Bytes -> Bytes)

  /** Type-specific processing. */
  function BySort(p: Processor, c: Content): Content {
    if c.kind == TYPE_TEXT || c.kind == TYPE_STRING || c.kind == TYPE_URL then c.(data := TrimSpace(c.data))
    else if c.kind == TYPE_FILE then c.(data := p.existing(c.data))
    else c
  }

  function Transform(ts: seq<Transformer>, c: Content): Option<Content>
    decreases |ts|
  {
    if ts == [] then Some(c)
    else match ts[0](c)
      case None => None
      case Some(d) => Transform(ts[1..], d)
  }

  predicate PassesAll(fs: seq<Filter>, c: Content) { forall i :: 0 <= i < |fs| ==> fs[i](c) }

  /** What survives: None is a content dropped by size, a transformer or a filter. */
  function Processed(p: Processor, c: Content): Option<Content> {
    if |c.data| > p.maxSize then None
    else match Transform(p.transformers, BySort(p, c))
      case None => None
      case Some(d) => if PassesAll(p.filters, d) then Some(d) else None
  }

  method Process(p: Processor, content: Content) returns (result: Option<Content>)
    ensures result == Processed(p, content)
  {
    if |content.data| > p.maxSize { return None; }
    var c := BySort(p, content);
    for i := 0 to |p.transformers|
      invariant Transform(p.transformers[i..], c) == Transform(p.transformers, BySort(p, content))
    {
      assert p.transformers[i..][1..] == p.transformers[i + 1..];
      match p.transformers[i](c) {
        case None => return None;
        case Some(d) => c := d;
      }
    }
    assert p.transformers[|p.transformers|..] == [];
    for i := 0 to |p.filters|
      invariant forall j :: 0 <= j < i ==> p.filters[j](c)
    {
      if !p.filters[i](c) { return None; }
    }
    return Some(c);
  }

  /** `cs` leads from `c` through all transformers to `d`, none of which drops it. */
  predicate Passes(ts: seq<Transformer>, cs: seq<Content>, c: Content, d: Content) {
    && |cs| == |ts| + 1 && cs[0] == c && cs[|ts|] == d
    && forall i :: 0 <= i < |ts| ==> ts[i](cs[i]) == Some(cs[i + 1])
  }

  lemma {:induction false} TransformPasses(ts: seq<Transformer>, c: Content) returns (cs: seq<Content>)
    ensures Transform(ts, c).Some? ==> Passes(ts, cs, c, Transform(ts, c).value)
    decreases |ts|
  {
    cs := [c];
    if ts != [] && ts[0](c).Some? {
      var rest := TransformPasses(ts[1..], ts[0](c).value);
      if Transform(ts, c).Some? {
        cs := [c] + rest;
        assert forall i :: 0 < i < |ts| ==> ts[i] == ts[1..][i - 1] && cs[i] == rest[i - 1];
      }
    }
  }

  lemma {:induction false} PassesTransform(ts: seq<Transformer>, cs: seq<Content>, c: Content, d: Content)
    requires Passes(ts, cs, c, d)
    ensures Transform(ts, c) == Some(d)
    decreases |ts|
  {
    if ts != [] {
      var rest := cs[1..];
      assert forall i :: 0 <= i < |ts| - 1 ==> ts[1..][i] == ts[i + 1] && rest[i] == cs[i + 1];
      PassesTransform(ts[1..], rest, cs[1], d);
    }
  }

  /** A content survives as `d` exactly when it fits, each transformer hands it on to the next, and all filters pass. */
  lemma ProcessedIff(p: Processor, c: Content, d: Content)
    ensures Processed(p, c) == Some(d) <==>
            && |c.data| <= p.maxSize
            && (exists cs :: Passes(p.transformers, cs, BySort(p, c), d))
            && (forall f :: f in p.filters ==> f(d))
  {
    hide BySort;
    var cs := TransformPasses(p.transformers, BySort(p, c));
    forall cs, d | Passes(p.transformers, cs, BySort(p, c), d)
      ensures Transform(p.transformers, BySort(p, c)) == Some(d)
    {
      PassesTransform(p.transformers, cs, BySort(p, c), d);
    }
  }

  // ---------- The monitor's configuration ----------

  function TrimTransformer(): Transformer {
    (c: Content) => Some(if c.kind == TYPE_TEXT || c.kind == TYPE_URL then c.(data := TrimSpace(c.data)) else c)
  }

  /** The monitor's processor: one trimming transformer, no filters. */
  function MonitorProcessor(maxSize: int, existing: Bytes -> Bytes): Processor {
    Processor(maxSize, [TrimTransformer()], [], existing)
  }

  /** What the monitor's processor does, in one step. */
  lemma MonitorProcessing(maxSize: int, existing: Bytes -> Bytes, c: Content)
    ensures Processed(MonitorProcessor(maxSize, existing), c) ==
            if |c.data| > maxSize then None else Some(BySort(MonitorProcessor(maxSize, existing), c))
  {
    var p := MonitorProcessor(maxSize, existing);
    TrimSpaceFixed(c.data);
    assert p.transformers[1..] == [];
  }

  /** Processing twice is processing once, for every type but file lists. */
  lemma ProcessingTwice(maxSize: int, existing: Bytes -> Bytes, c: Content)
    requires c.kind != TYPE_FILE
    ensures var p := MonitorProcessor(maxSize, existing);
            Processed(p, c).Some? ==> Processed(p, Processed(p, c).value) == Processed(p, c)
  {
    var p := MonitorProcessor(maxSize, existing);
    MonitorProcessing(maxSize, existing, c);
    MonitorProcessing(maxSize, existing, BySort(p, c));
    TrimSpaceFixed(c.data);
    TrimSpaceShrinks(c.data);
  }
}
