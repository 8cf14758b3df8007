/**
A tree seen from one of its pages: the pages above it, as a cursor keeps them, and the page itself.
*/
module Zipper {
  import opened Tree
  import opened Redistribution

  /** The pages above the current one; n is the child of page that the path takes. */
  datatype Ctx = Top | Under(up: Ctx, page: Node, n: nat)
  {
    function Depth(): nat { if Top? then 0 else up.Depth() + 1 }
  }

  ghost predicate IsCtx(ctx: Ctx) {
    ctx.Under? ==> ctx.page.Interior? && ctx.n <= |ctx.page.slots| && IsCtx(ctx.up)
  }

  /** The tree in which t is the current page. */
  function Plug(ctx: Ctx, t: Node): Node
    requires IsCtx(ctx)
    decreases ctx
  {
    match ctx
    case Top => t
    case Under(up, page, n) => Plug(up, SetChild(page, n, t))
  }

  /** The entries before and after the current page. */
  function Ahead(intKey: bool, ctx: Ctx): seq<Cell>
    requires IsCtx(ctx)
  {
    match ctx
    case Top => []
    case Under(up, page, n) => Ahead(intKey, up) + Flat(intKey, !intKey, page.slots[..n])
  }

  function Behind(intKey: bool, ctx: Ctx): seq<Cell>
    requires IsCtx(ctx)
  {
    match ctx
    case Top => []
    case Under(up, page, n) => Rest(intKey, page, n) + Behind(intKey, up)
  }

  lemma {:induction false} PlugEntries(intKey: bool, ctx: Ctx, t: Node)
    requires IsCtx(ctx)
    ensures Entries(intKey, Plug(ctx, t)) == Ahead(intKey, ctx) + Entries(intKey, t) + Behind(intKey, ctx)
    decreases ctx
  {
    if ctx.Under? {
      PlugEntries(intKey, ctx.up, SetChild(ctx.page, ctx.n, t));
      AssembleEntries(intKey, ctx.page, ctx.n, ctx.n, [], t);
      NoEntries(intKey);
      PlugStep(Ahead(intKey, ctx.up), Flat(intKey, !intKey, ctx.page.slots[..ctx.n]), Entries(intKey, t),
               Rest(intKey, ctx.page, ctx.n), Behind(intKey, ctx.up));
    } else {
      assert [] + Entries(intKey, t) + [] == Entries(intKey, t);
    }
  }

  lemma PlugStep<T>(a: seq<T>, f: seq<T>, e: seq<T>, r: seq<T>, b: seq<T>)
    ensures a + (f + ([] + e) + r) + b == (a + f) + e + (r + b)
  {}

  /** The separators of the pages above, when the current page has n entries. */
  ghost predicate CtxSep(es: seq<Cell>, ctx: Ctx, n: nat)
    requires IsCtx(ctx)
    decreases ctx
  {
    ctx.Under? ==>
      var o := |Ahead(true, ctx.up)|;
      var size := |Flat(true, false, ctx.page.slots[..ctx.n])| + n;
      && RunSep(es, o, ctx.page.slots[..ctx.n]) && RestSep(es, o + size, ctx.page, ctx.n)
      && CtxSep(es, ctx.up, size + |Rest(true, ctx.page, ctx.n)|)
  }

  lemma SetChildSep(es: seq<Cell>, o: nat, p: Node, n: nat, t: Node)
    requires p.Interior? && n <= |p.slots|
    ensures var size := |Flat(true, false, p.slots[..n])| + |Entries(true, t)|;
      && |Entries(true, SetChild(p, n, t))| == size + |Rest(true, p, n)|
      && (SepAll(es, o, SetChild(p, n, t)) <==>
           && SepAll(es, o + |Flat(true, false, p.slots[..n])|, t)
           && RunSep(es, o, p.slots[..n]) && RestSep(es, o + size, p, n))
  {
    hide Flat, Rest, SepAll, RestSep, Cuts, Entries, RunSep;
    AssembleSep(es, o, p, n, n, [], t);
    AssembleEntries(true, p, n, n, [], t);
    NoEntries(true);
    NoSeparators(es, o + |Flat(true, false, p.slots[..n])|);
  }

  lemma NoSeparators(es: seq<Cell>, o: nat)
    ensures RunSep(es, o, [])
  {}

  lemma {:induction false} PlugSep(es: seq<Cell>, ctx: Ctx, t: Node)
    requires IsCtx(ctx)
    ensures SepAll(es, 0, Plug(ctx, t)) <==>
      SepAll(es, |Ahead(true, ctx)|, t) && CtxSep(es, ctx, |Entries(true, t)|)
    decreases ctx
  {
    hide Flat, Rest, SepAll, RestSep, Cuts, Entries, RunSep, SetChild;
    if ctx.Under? {
      PlugSep(es, ctx.up, SetChild(ctx.page, ctx.n, t));
      SetChildSep(es, |Ahead(true, ctx.up)|, ctx.page, ctx.n, t);
    }
  }
}
