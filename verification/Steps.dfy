/** The elementary changes that keep the file well formed. */
module Steps {
  import opened Base
  import opened Layout
  import opened FreeList
  import opened Space
  import opened Ledger
  import opened State

  /** The allocator's view when the current bucket is at address a. */
  ghost function View(f: File, h: Header, b: Books, a: nat): Space
    requires a in b.avs
  {
    Space(f, h, b.avs[a], b.stack, b.scraps, b.dropped)
  }

  /** The books after the allocator has reached t, with `held` in transit. */
  ghost function Rebooked(b: Books, a: nat, t: Space, held: seq<AvailElem>): Books {
    b.(avs := b.avs[a := t.av], stack := t.stack, scraps := t.scraps, dropped := t.dropped, held := held)
  }

  lemma SpaceViewOk(f: File, h: Header, dir: seq<nat>, b: Books, hc: bool, a: nat)
    requires Sound(f, h, dir, b, hc) && a in b.tabs
    ensures a in b.avs && ListsOk(View(f, h, b, a)) && Chained(View(f, h, b, a))
  {
  }

  ghost predicate HeldMoves(b: Books, held: seq<AvailElem>, freed: AvailElem, taken: AvailElem) {
    && (forall x: nat :: Cover(held, x) + In(freed, x) == Cover(b.held, x) + In(taken, x))
    && (forall x: nat :: In(freed, x) <= Cover(b.held, x))
  }

  /** The books after an allocation or a release: only free space and transit differ. */
  ghost predicate Allotted(b: Books, c: Books, a: nat, av: seq<AvailElem>, held: seq<AvailElem>) {
    && c == b.(avs := b.avs[a := av], stack := c.stack, scraps := c.scraps, dropped := c.dropped, held := held)
    && b.scraps <= c.scraps && |c.scraps| <= |b.scraps| + 1
    && b.dropped <= c.dropped && |c.dropped| <= |b.dropped| + 1
  }

  lemma TiledApart(f: File, h: Header, b: Books, a: nat, freed: AvailElem)
    requires Tiled(h, b) && a in b.avs
    requires forall x: nat :: In(freed, x) <= Cover(b.held, x)
    ensures Apart(View(f, h, b, a), freed)
  {
    forall x: nat
      ensures Pool(View(f, h, b, a), x) + In(freed, x) <= if x < h.nextBlock then 1 else 0
    {
      hide Cover, In, StackCover, Homes, Records, FreeIn;
      FreeTake(b.avs, a, x);
      assert Owners(h, b, x) == if x < h.nextBlock then 1 else 0;
      assert In(freed, x) <= Cover(b.held, x);
    }
  }

  /** Nothing in transit, of any size, lies at the start of the file. */
  lemma HeldNotAtZero(h: Header, b: Books, e: AvailElem)
    requires Tiled(h, b) && 0 < h.blockSize && e in b.held && e.size > 0
    ensures e.adr > 0
  {
    CoverMember(b.held, e, 0);
    assert Owners(h, b, 0) <= 1;
  }

  lemma TakeHeld(b: Books, i: nat)
    requires i < |b.held|
    ensures HeldMoves(b, RemoveAt(b.held, i), b.held[i], NOTHING)
  {
    forall x: nat
      ensures Cover(RemoveAt(b.held, i), x) + In(b.held[i], x) == Cover(b.held, x) + In(NOTHING, x)
      ensures In(b.held[i], x) <= Cover(b.held, x)
    {
      CoverRemove(b.held, i, x);
    }
  }

  lemma AddHeld(b: Books, e: AvailElem)
    ensures HeldMoves(b, b.held + [e], NOTHING, e)
  {
    forall x: nat
      ensures Cover(b.held + [e], x) + In(NOTHING, x) == Cover(b.held, x) + In(e, x)
    {
      CoverConcat(b.held, [e], x);
      assert Cover([e], x) == In(e, x) + Cover([], x);
    }
  }

  lemma StepTiled(f: File, h: Header, b: Books, a: nat, t: Space, freed: AvailElem, taken: AvailElem,
                  held: seq<AvailElem>)
    requires Tiled(h, b) && a in b.avs
    requires Balanced(View(f, h, b, a), t, freed, taken)
    requires HeldMoves(b, held, freed, taken)
    ensures Tiled(t.hdr, Rebooked(b, a, t, held))
  {
    hide Cover, In, StackCover, Homes, Records, FreeIn;
    forall x: nat
      ensures Owners(t.hdr, Rebooked(b, a, t, held), x) == if x < t.hdr.nextBlock then 1 else 0
    {
      FreeTake(b.avs, a, x);
      FreeUpdate(b.avs, a, t.av, x);
      assert Owners(h, b, x) == if x < h.nextBlock then 1 else 0;
      assert Delta(View(f, h, b, a), t, x) == In(freed, x) - In(taken, x);
      assert Cover(held, x) + In(freed, x) == Cover(b.held, x) + In(taken, x);
    }
  }

  lemma StepKeeps(f: File, h: Header, b: Books, hc: bool, a: nat, t: Space, freed: AvailElem, taken: AvailElem,
                  held: seq<AvailElem>)
    requires Tiled(h, b) && a in b.avs
    requires FileKept(View(f, h, b, a), t, freed)
    requires HeldMoves(b, held, freed, taken)
    ensures KeepsProtected(f, t.file, h, b, hc)
  {
    hide Cover, In, StackCover, Homes, Records, FreeIn, Protected;
    forall x | 0 <= x < |f| && Protected(h, b, hc, x)
      ensures t.file[x] == f[x]
    {
      ProtectedOwned(h, b, hc, x);
      HomesMono(b.tabs.Keys - b.dirty, b.tabs.Keys, h.bucketSize, x);
      FreeTake(b.avs, a, x);
      assert Owners(h, b, x) == if x < h.nextBlock then 1 else 0;
      assert In(freed, x) <= Cover(b.held, x);
    }
  }

  lemma {:induction false} HomesMono(some: set<nat>, all: set<nat>, size: nat, x: nat)
    requires some <= all
    ensures Homes(some, size, x) <= Homes(all, size, x)
    decreases |some|
  {
    if some != {} {
      var a := PickKey(some);
      HomesTake(all, size, a, x);
      HomesMono(some - {a}, all - {a}, size, x);
    }
  }

  /** A step of the allocator keeps the file well formed and disturbs no record. */
  lemma SpaceStep(f: File, h: Header, dir: seq<nat>, b: Books, hc: bool, a: nat,
                  t: Space, freed: AvailElem, taken: AvailElem, held: seq<AvailElem>, hc': bool)
    requires Sound(f, h, dir, b, hc) && a in b.tabs && a in b.dirty && a in b.avs
    requires Balanced(View(f, h, b, a), t, freed, taken) && FileKept(View(f, h, b, a), t, freed)
    requires ListsOk(t) && Chained(t)
    requires HeldMoves(b, held, freed, taken)
    requires !hc' ==> !hc && t.hdr == h
    ensures Sound(t.file, t.hdr, dir, Rebooked(b, a, t, held), hc')
    ensures forall s :: s in b.slots ==> SameRecord(f, t.file, s)
  {
    var b' := Rebooked(b, a, t, held);
    StepTiled(f, h, b, a, t, freed, taken, held);
    StepKeeps(f, h, b, hc, a, t, freed, taken, held);
    StepImages(f, h, dir, b, hc, a, t, held, hc');
    FrameContent(f, t.file, h, b, hc);
    StepAvails(h, b, a, t, held);
  }

  lemma StepImages(f: File, h: Header, dir: seq<nat>, b: Books, hc: bool, a: nat, t: Space, held: seq<AvailElem>,
                   hc': bool)
    requires ImagesOk(f, h, dir, b, hc) && a in b.dirty && KeepsProtected(f, t.file, h, b, hc)
    requires SameGeometry(h, t.hdr) && (!hc' ==> !hc && t.hdr == h)
    ensures ImagesOk(t.file, t.hdr, dir, Rebooked(b, a, t, held), hc')
  {
    hide Protected, Holds;
    FrameImages(f, t.file, h, dir, b, hc);
  }

  lemma StepAvails(h: Header, b: Books, a: nat, t: Space, held: seq<AvailElem>)
    requires AvailsOk(b) && Geometry(h) && SameGeometry(h, t.hdr) && a in b.avs && ListsOk(t)
    ensures AvailsOk(Rebooked(b, a, t, held)) && Geometry(t.hdr)
  {
    hide GoodList, Pow2;
  }
}
