// The page size read from a PDF's object graph, as `resolve_page_size`,
// `resolve_media_box` and `media_box_from_array` compute it in both
// src/utils.rs and src/pdf/utils.rs (the two copies are identical). The
// document is the map from object references to the objects
// `read_object_with_ref` returns; numbers are exact reals.
module PageSize {
  import opened Wrappers

  type ObjRef = (nat, nat)

  datatype PdfNumber = Signed(i: int) | Unsigned(u: nat) | RealNumber(x: real)

  datatype PdfObject =
    | Number(n: PdfNumber)
    | Array(values: seq<PdfObject>)
    | Dict(entries: map<string, PdfObject>)
    | ObjectRef(num: nat, gen: nat)
    | Indirect(objNum: nat, objGen: nat, inner: PdfObject)
    | OtherObject

  datatype Document = Document(objects: map<ObjRef, PdfObject>)

  const DEFAULT_PAGE_SIZE: (real, real) := (595.0, 842.0)

  /** `read_object`: the object behind a reference, None when it cannot be
      read. */
  function ReadObject(doc: Document, r: ObjRef): (o: Option<PdfObject>)
    ensures o.Some? <==> r in doc.objects
  {
    if r in doc.objects then Some(doc.objects[r]) else None
  }

  function NumberValue(n: PdfNumber): real
  {
    match n
    case Signed(i) => i as real
    case Unsigned(u) => u as real
    case RealNumber(x) => x
  }

  function AsNumber(o: PdfObject): (r: Option<real>)
    ensures r.Some? <==> o.Number?
  {
    if o.Number? then Some(NumberValue(o.n)) else None
  }

  function Abs(x: real): (r: real)
    ensures r >= 0.0 && (r == x || r == -x)
  {
    if x < 0.0 then -x else x
  }

  /** `media_box_from_array`: exactly four numbers, read as the corners
      (left, bottom, right, top); the size is accepted only when both sides
      exceed one point. */
  function MediaBoxFromArray(values: seq<PdfObject>): (r: Option<(real, real)>)
    ensures r.Some? <==>
      && |values| == 4 && (forall i :: 0 <= i < 4 ==> values[i].Number?)
      && Abs(NumberValue(values[2].n) - NumberValue(values[0].n)) > 1.0
      && Abs(NumberValue(values[3].n) - NumberValue(values[1].n)) > 1.0
    ensures r.Some? ==>
      && r.value.0 == Abs(NumberValue(values[2].n) - NumberValue(values[0].n))
      && r.value.1 == Abs(NumberValue(values[3].n) - NumberValue(values[1].n))
  {
    if |values| != 4 then None
    else
      match (AsNumber(values[0]), AsNumber(values[1]), AsNumber(values[2]), AsNumber(values[3]))
      case (Some(left), Some(bottom), Some(right), Some(top)) =>
        var width := Abs(right - left);
        var height := Abs(top - bottom);
        if width > 1.0 && height > 1.0 then Some((width, height)) else None
      case _ => None
  }

  /** The size does not depend on which corner a box lists first. */
  lemma MediaBoxCornerOrder(a: PdfObject, b: PdfObject, c: PdfObject, d: PdfObject)
    ensures MediaBoxFromArray([a, b, c, d]) == MediaBoxFromArray([c, d, a, b])
  {
  }

  /** `as_dictionary`: a dictionary, or an indirect object holding one. */
  function AsDictionary(o: PdfObject): (r: Option<map<string, PdfObject>>)
    ensures r.Some? <==> o.Dict? || (o.Indirect? && o.inner.Dict?)
  {
    match o
    case Dict(d) => Some(d)
    case Indirect(_, _, inner) => if inner.Dict? then Some(inner.entries) else None
    case _ => None
  }

  /** `resolve_object_ref`: a reference, possibly inside indirect objects. */
  function ResolveObjectRef(o: PdfObject): (r: Option<ObjRef>)
    ensures o.ObjectRef? ==> r == Some((o.num, o.gen))
    ensures r.None? ==> !o.ObjectRef?
  {
    match o
    case ObjectRef(num, gen) => Some((num, gen))
    case Indirect(_, _, inner) => ResolveObjectRef(inner)
    case _ => None
  }

  /** `resolve_media_box`: an array, or a reference or indirect object
      leading to one. `visited` holds the references already followed; a
      reference met twice ends the search with None. */
  function ResolveMediaBox(doc: Document, o: PdfObject, visited: set<ObjRef>): (r: Option<(real, real)>)
    ensures r.Some? ==> r.value.0 > 1.0 && r.value.1 > 1.0
    ensures o.Array? ==> r == MediaBoxFromArray(o.values)
    decreases |doc.objects.Keys - visited|, o
  {
    match o
    case Array(values) => MediaBoxFromArray(values)
    case ObjectRef(num, gen) =>
      var target := (num, gen);
      if target in visited || target !in doc.objects then None
      else
        FewerUnvisited(doc.objects.Keys, visited, target);
        ResolveMediaBox(doc, doc.objects[target], visited + {target})
    case Indirect(_, _, inner) => ResolveMediaBox(doc, inner, visited)
    case _ => None
  }

  lemma FewerUnvisited(keys: set<ObjRef>, visited: set<ObjRef>, r: ObjRef)
    requires r in keys && r !in visited
    ensures |keys - (visited + {r})| < |keys - visited|
  {
    assert keys - (visited + {r}) == (keys - visited) - {r};
  }

  /** The size a dictionary's own MediaBox entry gives, if any. */
  function MediaBoxOf(doc: Document, dict: map<string, PdfObject>): (r: Option<(real, real)>)
    ensures r.Some? ==> "MediaBox" in dict && r.value.0 > 1.0 && r.value.1 > 1.0
  {
    if "MediaBox" in dict then ResolveMediaBox(doc, dict["MediaBox"], {}) else None
  }

  /** The reference in a dictionary's Parent entry, if any. */
  function ParentOf(dict: map<string, PdfObject>): (r: Option<ObjRef>)
    ensures r.Some? ==> "Parent" in dict
  {
    if "Parent" in dict then ResolveObjectRef(dict["Parent"]) else None
  }

  /** One round of the loop over the Parent chain. */
  datatype Step = Found(size: (real, real)) | Next(parent: Option<ObjRef>) | Stop

  function ChainStep(doc: Document, parentRef: ObjRef): (r: Step)
    ensures r.Found? ==> r.size.0 > 1.0 && r.size.1 > 1.0
    ensures r.Stop? ==> parentRef !in doc.objects || AsDictionary(doc.objects[parentRef]).None?
  {
    match ReadObject(doc, parentRef)
    case None => Stop
    case Some(obj) =>
      match AsDictionary(obj)
      case None => Stop
      case Some(dict) =>
        match MediaBoxOf(doc, dict)
        case Some(size) => Found(size)
        case None => Next(ParentOf(dict))
  }

  /** The size the Parent chain from `parent` gives, where the chain stops
      at the first ancestor already in `visited`. */
  function ChainSize(doc: Document, parent: Option<ObjRef>, visited: set<ObjRef>): (r: (real, real))
    ensures r == DEFAULT_PAGE_SIZE || (r.0 > 1.0 && r.1 > 1.0)
    decreases |doc.objects.Keys - visited|
  {
    match parent
    case None => DEFAULT_PAGE_SIZE
    case Some(p) =>
      if p in visited then DEFAULT_PAGE_SIZE
      else
        match ChainStep(doc, p)
        case Found(size) => size
        case Stop => DEFAULT_PAGE_SIZE
        case Next(next) =>
          FewerUnvisited(doc.objects.Keys, visited, p);
          ChainSize(doc, next, visited + {p})
  }

  /** Where the chain walk starts: the page's own MediaBox answers at
      once; otherwise the walk starts at the known parent, or else at the
      page's Parent entry. */
  function PageStart(doc: Document, pageRef: ObjRef, pageParent: Option<ObjRef>): (r: Step)
    ensures r.Found? ==> r.size.0 > 1.0 && r.size.1 > 1.0
    ensures r.Next? && pageParent.Some? ==> r.parent == pageParent
    ensures r.Next? && ReadObject(doc, pageRef).None? ==> r.parent == pageParent
  {
    match ReadObject(doc, pageRef)
    case None => Next(pageParent)
    case Some(obj) =>
      match AsDictionary(obj)
      case None => Next(pageParent)
      case Some(dict) =>
        match MediaBoxOf(doc, dict)
        case Some(size) => Found(size)
        case None => Next(if pageParent.None? then ParentOf(dict) else pageParent)
  }

  /** The page size: the first MediaBox on the page or its chain of
      parents, else 595 x 842 points. */
  function PageSize(doc: Document, pageRef: ObjRef, pageParent: Option<ObjRef>): (r: (real, real))
  {
    match PageStart(doc, pageRef, pageParent)
    case Found(size) => size
    case Next(parent) => ChainSize(doc, parent, {})
    case Stop => DEFAULT_PAGE_SIZE
  }

  /** Every page gets a size: a MediaBox larger than one point each way, or
      the default. */
  lemma PageSizeIsUsable(doc: Document, pageRef: ObjRef, pageParent: Option<ObjRef>)
    ensures var r := PageSize(doc, pageRef, pageParent);
      r == DEFAULT_PAGE_SIZE || (r.0 > 1.0 && r.1 > 1.0)
  {
  }

  /** A page whose own MediaBox is usable takes it, whatever its parents
      say. */
  lemma OwnMediaBoxWins(doc: Document, pageRef: ObjRef, pageParent: Option<ObjRef>)
    requires pageRef in doc.objects && doc.objects[pageRef].Dict?
    requires MediaBoxOf(doc, doc.objects[pageRef].entries).Some?
    ensures PageSize(doc, pageRef, pageParent) == MediaBoxOf(doc, doc.objects[pageRef].entries).value
  {
  }

  /** A page without a MediaBox inherits its parent's. */
  lemma InheritsParentMediaBox(doc: Document, pageRef: ObjRef, parentRef: ObjRef)
    requires pageRef in doc.objects && doc.objects[pageRef].Dict?
    requires MediaBoxOf(doc, doc.objects[pageRef].entries).None?
    requires parentRef in doc.objects && doc.objects[parentRef].Dict?
    requires MediaBoxOf(doc, doc.objects[parentRef].entries).Some?
    ensures PageSize(doc, pageRef, Some(parentRef)) == MediaBoxOf(doc, doc.objects[parentRef].entries).value
  {
  }

  /** `resolve_page_size`, with the loop over the Parent chain stopping at
      the first ancestor it has already visited. */
  method ResolvePageSize(doc: Document, pageRef: ObjRef, pageParent: Option<ObjRef>) returns (size: (real, real))
    ensures size == PageSize(doc, pageRef, pageParent)
  {
    var parent := pageParent;
    match PageStart(doc, pageRef, pageParent)
    case Found(s) =>
      return s;
    case Stop =>
      return DEFAULT_PAGE_SIZE;
    case Next(start) =>
      parent := start;
    ghost var target := ChainSize(doc, parent, {});
    var visited: set<ObjRef> := {};
    while parent.Some? && parent.value !in visited
      invariant ChainSize(doc, parent, visited) == target
      decreases |doc.objects.Keys - visited|
    {
      var p := parent.value;
      match ChainStep(doc, p)
      case Found(s) =>
        return s;
      case Stop =>
        return DEFAULT_PAGE_SIZE;
      case Next(next) =>
        FewerUnvisited(doc.objects.Keys, visited, p);
        visited := visited + {p};
        parent := next;
    }
    size := DEFAULT_PAGE_SIZE;
  }

  // The loop as written has no visited set: it follows Parent entries for
  // as long as they lead to readable dictionaries without a MediaBox.

  /** The loop as written after `n` rounds: the size once it has one, None
      while it is still running. */
  function WalkAsWritten(doc: Document, parent: Option<ObjRef>, n: nat): (r: Option<(real, real)>)
    ensures r.Some? ==> r.value == DEFAULT_PAGE_SIZE || (r.value.0 > 1.0 && r.value.1 > 1.0)
    decreases n
  {
    match parent
    case None => Some(DEFAULT_PAGE_SIZE)
    case Some(p) =>
      match ChainStep(doc, p)
      case Found(size) => Some(size)
      case Stop => Some(DEFAULT_PAGE_SIZE)
      case Next(next) => if n == 0 then None else WalkAsWritten(doc, next, n - 1)
  }

  /** A page tree node whose Parent is itself and which has no MediaBox. */
  const SELF_PARENT_DOC: Document := Document(map[(1, 0) := Dict(map["Parent" := ObjectRef(1, 0)])])

  /** On a Parent chain that comes back to itself without a MediaBox the
      loop as written never finishes, however many rounds it is given;
      the walk with a visited set gives the default size. */
  lemma {:induction false} SelfParentNeverEnds(n: nat)
    ensures WalkAsWritten(SELF_PARENT_DOC, Some((1, 0)), n).None?
    ensures ChainSize(SELF_PARENT_DOC, Some((1, 0)), {}) == DEFAULT_PAGE_SIZE
  {
    var d := SELF_PARENT_DOC.objects[(1, 0)].entries;
    assert MediaBoxOf(SELF_PARENT_DOC, d).None?;
    assert ChainStep(SELF_PARENT_DOC, (1, 0)) == Next(Some((1, 0)));
    if n > 0 {
      SelfParentNeverEnds(n - 1);
    }
  }

  /** The reference the loop as written holds after `k` rounds, None once
      it has ended. */
  function Ancestor(doc: Document, parent: Option<ObjRef>, k: nat): (r: Option<ObjRef>)
    ensures k == 0 ==> r == parent
    decreases k
  {
    match parent
    case None => None
    case Some(p) =>
      if k == 0 then Some(p)
      else
        match ChainStep(doc, p)
        case Next(next) => Ancestor(doc, next, k - 1)
        case _ => None
  }

  /** Where the loop as written finishes within `n` rounds without holding
      the same reference twice, the walk with a visited set gives the same
      size. */
  lemma {:induction false} WalkAgrees(doc: Document, parent: Option<ObjRef>, n: nat, visited: set<ObjRef>)
    requires WalkAsWritten(doc, parent, n).Some?
    requires forall i, j :: 0 <= i < j <= n && Ancestor(doc, parent, i).Some? && Ancestor(doc, parent, j).Some? ==>
      Ancestor(doc, parent, i) != Ancestor(doc, parent, j)
    requires forall k :: 0 <= k <= n && Ancestor(doc, parent, k).Some? ==> Ancestor(doc, parent, k).value !in visited
    ensures ChainSize(doc, parent, visited) == WalkAsWritten(doc, parent, n).value
    decreases n
  {
    match parent
    case None =>
    case Some(p) =>
      assert Ancestor(doc, parent, 0) == Some(p);
      match ChainStep(doc, p)
      case Found(_) =>
      case Stop =>
      case Next(next) =>
        forall k | 0 <= k <= n - 1
          ensures Ancestor(doc, next, k) == Ancestor(doc, parent, k + 1)
        {
        }
        WalkAgrees(doc, next, n - 1, visited + {p});
  }
}
