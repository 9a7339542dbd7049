/** Masking of payloads: the two-layer walk and the four-layer one above it.

    `sensitive` stands for the key-name pattern and is arbitrary. A declarative schema is an arbitrary
    predicate on cell paths; the seal set is a set of paths, exact or generalised.
 */
module MaskLayered {
  import opened VaultRefs
  import opened IndexPaths
  import Naming = Names
  import opened Seqs

  datatype Tree =
    | Nil
    | NilMap                            // a map that was never made
    | Text(s: string)
    | Scalar(repr: string)              // numbers, booleans: copied as they are
    | AnyMap(fields: map<string, Tree>)
    | AnyList(items: seq<Tree>)
    | StrMap(texts: map<string, string>)
    | StrList(lines: seq<string>)

  type Names = string -> bool

  const HIDDEN := Text(MASKED)

  function MaskText(s: string): Tree {
    if ContainsRef(s) then HIDDEN else Text(s)
  }

  // ---- MaskSecrets ------------------------------------------------------------------------

  function Plain(t: Tree, sensitive: Names): Tree {
    match t
    case Text(s) => MaskText(s)
    case AnyMap(m) => AnyMap(map k | k in m :: if sensitive(k) then HIDDEN else Plain(m[k], sensitive))
    case AnyList(xs) => AnyList(seq(|xs|, i requires 0 <= i < |xs| => Plain(xs[i], sensitive)))
    case StrMap(m) => AnyMap(map k | k in m :: if sensitive(k) then HIDDEN else MaskText(m[k]))
    case StrList(xs) => AnyList(seq(|xs|, i requires 0 <= i < |xs| => MaskText(xs[i])))
    case _ => t
  }

  // ---- MaskSecretsSealed ------------------------------------------------------------------

  datatype Schema = NoSchema | Schema(isSecret: string -> bool)

  datatype Opts = Opts(schema: Schema, paths: set<string>)

  const ZERO := Opts(NoSchema, {})

  /** A schema given as a set of paths, exact or generalised. */
  function PathSet(paths: set<string>): Schema {
    Schema(path => path in paths || NormalizeIdx(path) in paths)
  }

  /** The schema layer or the seal layer marks the path. */
  predicate PathIsSecret(path: string, o: Opts) {
    (o.schema.Schema? && o.schema.isSecret(path)) || path in o.paths || NormalizeIdx(path) in o.paths
  }

  /** A value whose own path no layer marks. */
  function Unsealed(t: Tree, cell: string, o: Opts, sensitive: Names): Tree
    decreases t, 0
  {
    match t
    case Text(s) => MaskText(s)
    case NilMap => AnyMap(map[])
    case AnyMap(m) =>
      AnyMap(map k | k in m :: if sensitive(k) then HIDDEN else Layered(m[k], JoinPath(cell, k), o, sensitive))
    case AnyList(xs) => AnyList(seq(|xs|, i requires 0 <= i < |xs| => Layered(xs[i], JoinIdx(cell, i), o, sensitive)))
    case StrMap(m) =>
      AnyMap(map k | k in m ::
        if sensitive(k) || PathIsSecret(JoinPath(cell, k), o) then HIDDEN else MaskText(m[k]))
    case StrList(xs) =>
      AnyList(seq(|xs|, i requires 0 <= i < |xs| =>
        if PathIsSecret(JoinIdx(cell, i), o) then HIDDEN else MaskText(xs[i])))
    case _ => t
  }

  function Layered(t: Tree, cell: string, o: Opts, sensitive: Names): Tree
    decreases t, 1
  {
    if PathIsSecret(cell, o) then HIDDEN else Unsealed(t, cell, o, sensitive)
  }

  /** The entry point, on a payload: the root's own path is not asked about, and nil stays nil. */
  function Sealed(payload: Tree, o: Opts, sensitive: Names): Tree
    requires payload.NilMap? || payload.AnyMap?
  {
    if payload.NilMap? then payload else Unsealed(payload, "", o, sensitive)
  }

  // ---- With no options --------------------------------------------------------------------

  /** A nil map stands where the walk comes by: not below a sensitive key. */
  predicate ReachesNilMap(t: Tree, sensitive: Names) {
    match t
    case NilMap => true
    case AnyMap(m) => exists k :: k in m && !sensitive(k) && ReachesNilMap(m[k], sensitive)
    case AnyList(xs) => exists i :: 0 <= i < |xs| && ReachesNilMap(xs[i], sensitive)
    case _ => false
  }

  lemma ZeroMarksNothing(path: string, o: Opts)
    requires o == ZERO
    ensures !PathIsSecret(path, o)
  {
  }

  lemma {:induction false} ZeroAgrees(t: Tree, cell: string, o: Opts, sensitive: Names)
    requires o == ZERO
    ensures Layered(t, cell, o, sensitive) == Plain(t, sensitive) <==> !ReachesNilMap(t, sensitive)
    decreases t, 1
  {
    ZeroMarksNothing(cell, o);
    match t
    case AnyMap(m) => ZeroAgreesOnMap(t, cell, o, sensitive);
    case AnyList(xs) => ZeroAgreesOnList(t, cell, o, sensitive);
    case StrMap(m) => assert Unsealed(t, cell, o, sensitive).fields == Plain(t, sensitive).fields;
    case StrList(xs) => assert Unsealed(t, cell, o, sensitive).items == Plain(t, sensitive).items;
    case _ =>
  }

  lemma {:induction false} ZeroAgreesOnMap(t: Tree, cell: string, o: Opts, sensitive: Names)
    requires o == ZERO && t.AnyMap?
    ensures Unsealed(t, cell, o, sensitive) == Plain(t, sensitive) <==> !ReachesNilMap(t, sensitive)
    decreases t, 0
  {
    var a, b := Unsealed(t, cell, o, sensitive).fields, Plain(t, sensitive).fields;
    forall k | k in t.fields
      ensures a[k] == b[k] <==> sensitive(k) || !ReachesNilMap(t.fields[k], sensitive)
    {
      ZeroAgrees(t.fields[k], JoinPath(cell, k), o, sensitive);
    }
    assert a == b <==> forall k :: k in t.fields ==> a[k] == b[k];
  }

  lemma {:induction false} ZeroAgreesOnList(t: Tree, cell: string, o: Opts, sensitive: Names)
    requires o == ZERO && t.AnyList?
    ensures Unsealed(t, cell, o, sensitive) == Plain(t, sensitive) <==> !ReachesNilMap(t, sensitive)
    decreases t, 0
  {
    var a, b := Unsealed(t, cell, o, sensitive).items, Plain(t, sensitive).items;
    forall i | 0 <= i < |t.items| ensures a[i] == b[i] <==> !ReachesNilMap(t.items[i], sensitive) {
      ZeroAgrees(t.items[i], JoinIdx(cell, i), o, sensitive);
    }
  }

  /** With zero options the layered walk is MaskSecrets, unless a nil map lies inside the payload. */
  lemma ZeroIsMaskSecrets(payload: Tree, sensitive: Names)
    requires payload.NilMap? || payload.AnyMap?
    ensures Sealed(payload, ZERO, sensitive) == Plain(payload, sensitive) <==>
      payload.NilMap? || !ReachesNilMap(payload, sensitive)
  {
    ZeroAgrees(payload, "", ZERO, sensitive);
    ZeroMarksNothing("", ZERO);
  }

  /** The documented equivalence does not hold of such a payload: nil comes back as an empty map. */
  lemma NestedNilMapDiffers(k: string, sensitive: Names)
    requires !sensitive(k)
    ensures Sealed(AnyMap(map[k := NilMap]), ZERO, sensitive) == AnyMap(map[k := AnyMap(map[])])
    ensures Plain(AnyMap(map[k := NilMap]), sensitive) == AnyMap(map[k := NilMap])
  {
    ZeroMarksNothing(JoinPath("", k), ZERO);
    assert Layered(NilMap, JoinPath("", k), ZERO, sensitive) == AnyMap(map[]);
    assert Sealed(AnyMap(map[k := NilMap]), ZERO, sensitive).fields == map[k := AnyMap(map[])];
    assert Plain(AnyMap(map[k := NilMap]), sensitive).fields == map[k := NilMap];
  }

  // ---- More options mask more -------------------------------------------------------------

  ghost predicate Stricter(o: Opts, p: Opts) {
    forall path :: PathIsSecret(path, o) ==> PathIsSecret(path, p)
  }

  /** b is a with some of its cells hidden and nothing else changed. */
  ghost predicate Hides(a: Tree, b: Tree) {
    b == HIDDEN || a == b
    || (a.AnyMap? && b.AnyMap? && a.fields.Keys == b.fields.Keys
        && forall k :: k in a.fields ==> Hides(a.fields[k], b.fields[k]))
    || (a.AnyList? && b.AnyList? && |a.items| == |b.items|
        && forall i :: 0 <= i < |a.items| ==> Hides(a.items[i], b.items[i]))
  }

  lemma {:induction false} StricterHides(t: Tree, cell: string, o: Opts, p: Opts, sensitive: Names)
    requires Stricter(o, p)
    ensures Hides(Layered(t, cell, o, sensitive), Layered(t, cell, p, sensitive))
    ensures Hides(Unsealed(t, cell, o, sensitive), Unsealed(t, cell, p, sensitive))
    decreases t
  {
    match t
    case AnyMap(m) =>
      forall k | k in m
        ensures Hides(Layered(m[k], JoinPath(cell, k), o, sensitive), Layered(m[k], JoinPath(cell, k), p, sensitive))
      {
        StricterHides(m[k], JoinPath(cell, k), o, p, sensitive);
      }
    case AnyList(xs) =>
      forall i | 0 <= i < |xs|
        ensures Hides(Layered(xs[i], JoinIdx(cell, i), o, sensitive), Layered(xs[i], JoinIdx(cell, i), p, sensitive))
      {
        StricterHides(xs[i], JoinIdx(cell, i), o, p, sensitive);
      }
    case _ =>
  }

  /** Adding a schema, or paths to seal, only hides more. */
  lemma AddingOptionsHides(payload: Tree, schema: Schema, paths: set<string>, more: set<string>, sensitive: Names)
    requires payload.NilMap? || payload.AnyMap?
    ensures Hides(Sealed(payload, Opts(NoSchema, paths), sensitive),
                  Sealed(payload, Opts(schema, paths + more), sensitive))
  {
    StricterHides(payload, "", Opts(NoSchema, paths), Opts(schema, paths + more), sensitive);
  }

  // ---- Masking twice ----------------------------------------------------------------------

  lemma {:induction false} MaskedTwice(t: Tree, cell: string, o: Opts, sensitive: Names)
    ensures Layered(Layered(t, cell, o, sensitive), cell, o, sensitive) == Layered(t, cell, o, sensitive)
    ensures Unsealed(Unsealed(t, cell, o, sensitive), cell, o, sensitive) == Unsealed(t, cell, o, sensitive)
    decreases t
  {
    var u := Unsealed(t, cell, o, sensitive);
    var w := Unsealed(u, cell, o, sensitive);
    match t
    case AnyMap(m) =>
      forall k | k in m && !sensitive(k) ensures w.fields[k] == u.fields[k] {
        MaskedTwice(m[k], JoinPath(cell, k), o, sensitive);
      }
      assert w.fields == u.fields;
    case AnyList(xs) =>
      forall i | 0 <= i < |xs| ensures w.items[i] == u.items[i] {
        MaskedTwice(xs[i], JoinIdx(cell, i), o, sensitive);
      }
      assert w.items == u.items;
    case StrMap(m) =>
      forall k | k in m ensures w.fields[k] == u.fields[k] { TextTwice(m[k], JoinPath(cell, k), o, sensitive); }
      assert w.fields == u.fields;
    case StrList(xs) =>
      forall i | 0 <= i < |xs| ensures w.items[i] == u.items[i] { TextTwice(xs[i], JoinIdx(cell, i), o, sensitive); }
      assert w.items == u.items;
    case NilMap => assert w.fields == u.fields;
    case _ =>
  }

  lemma TextTwice(s: string, cell: string, o: Opts, sensitive: Names)
    ensures Layered(MaskText(s), cell, o, sensitive) == if PathIsSecret(cell, o) then HIDDEN else MaskText(s)
    ensures Layered(HIDDEN, cell, o, sensitive) == HIDDEN
  {
  }

  lemma SealedIsIdempotent(payload: Tree, o: Opts, sensitive: Names)
    requires payload.NilMap? || payload.AnyMap?
    ensures var once := Sealed(payload, o, sensitive); Sealed(once, o, sensitive) == once
  {
    MaskedTwice(payload, "", o, sensitive);
  }

  // ---- What a masked cell holds does not matter -------------------------------------------

  datatype Step = Key(k: string) | Idx(i: nat)

  /** t holds a cell one step down; the cells of a string map or a string list are texts. */
  predicate HasCell(t: Tree, s: Step) {
    match s
    case Key(k) => (t.AnyMap? && k in t.fields) || (t.StrMap? && k in t.texts)
    case Idx(i) => (t.AnyList? && i < |t.items|) || (t.StrList? && i < |t.lines|)
  }

  function Cell(t: Tree, s: Step): Tree
    requires HasCell(t, s)
  {
    match s
    case Key(k) => if t.AnyMap? then t.fields[k] else Text(t.texts[k])
    case Idx(i) => if t.AnyList? then t.items[i] else Text(t.lines[i])
  }

  predicate HoldsTexts(t: Tree) {
    t.StrMap? || t.StrList?
  }

  function SetCell(t: Tree, s: Step, v: Tree): Tree
    requires HasCell(t, s) && (HoldsTexts(t) ==> v.Text?)
  {
    match s
    case Key(k) => if t.AnyMap? then AnyMap(t.fields[k := v]) else StrMap(t.texts[k := v.s])
    case Idx(i) => if t.AnyList? then AnyList(t.items[i := v]) else StrList(t.lines[i := v.s])
  }

  /** The address leads somewhere in t. */
  predicate Leads(t: Tree, addr: seq<Step>)
    decreases |addr|
  {
    addr == [] || (HasCell(t, addr[0]) && Leads(Cell(t, addr[0]), addr[1..]))
  }

  function At(t: Tree, addr: seq<Step>): Tree
    requires Leads(t, addr)
    decreases |addr|
  {
    if addr == [] then t else At(Cell(t, addr[0]), addr[1..])
  }

  /** The cell at the address can hold v: any value, or a text in a container of texts. */
  predicate Fits(t: Tree, addr: seq<Step>, v: Tree)
    decreases |addr|
  {
    addr == [] ||
    (HasCell(t, addr[0]) && Fits(Cell(t, addr[0]), addr[1..], v) && (HoldsTexts(t) ==> |addr| == 1 && v.Text?))
  }

  /** t with the cell at the address holding something else. */
  function Put(t: Tree, addr: seq<Step>, v: Tree): Tree
    requires Fits(t, addr, v)
    decreases |addr|
  {
    if addr == [] then v else SetCell(t, addr[0], Put(Cell(t, addr[0]), addr[1..], v))
  }

  function StepPath(cell: string, s: Step): string {
    match s case Key(k) => JoinPath(cell, k) case Idx(i) => JoinIdx(cell, i)
  }

  function PathFrom(cell: string, addr: seq<Step>): string
    decreases |addr|
  {
    if addr == [] then cell else PathFrom(StepPath(cell, addr[0]), addr[1..])
  }

  /** Some cell on the way, the last included, is marked or has a sensitive key. */
  predicate Covered(cell: string, addr: seq<Step>, o: Opts, sensitive: Names)
    decreases |addr|
  {
    addr != [] &&
    (Marked(cell, addr[0], o, sensitive) || Covered(StepPath(cell, addr[0]), addr[1..], o, sensitive))
  }

  /** The cell one step down is marked, or has a sensitive key. */
  predicate Marked(cell: string, s: Step, o: Opts, sensitive: Names) {
    PathIsSecret(StepPath(cell, s), o) || (s.Key? && sensitive(s.k))
  }

  /** A cell of the output is the cell of the input, hidden or masked in its turn. */
  lemma CellOut(t: Tree, cell: string, s: Step, o: Opts, sensitive: Names)
    ensures HasCell(Unsealed(t, cell, o, sensitive), s) <==> HasCell(t, s)
    ensures HasCell(t, s) ==>
      Cell(Unsealed(t, cell, o, sensitive), s)
      == if Marked(cell, s, o, sensitive) then HIDDEN else Unsealed(Cell(t, s), StepPath(cell, s), o, sensitive)
  {
  }

  // ---- What the output tells ----------------------------------------------------------------

  /** What a cell shows without its own cells: the keys, the number of items, or a leaf as masked. */
  datatype Frame = Keys(keys: set<string>) | Count(n: nat) | Leaf(leaf: Tree)

  function FrameOf(t: Tree): Frame {
    match t
    case NilMap => Keys({})
    case AnyMap(m) => Keys(m.Keys)
    case StrMap(m) => Keys(m.Keys)
    case AnyList(xs) => Count(|xs|)
    case StrList(xs) => Count(|xs|)
    case Text(s) => Leaf(MaskText(s))
    case _ => Leaf(t)
  }

  /** The payloads agree at one address. */
  predicate AgreeAt(t: Tree, u: Tree, addr: seq<Step>) {
    (Leads(t, addr) <==> Leads(u, addr)) && (Leads(t, addr) ==> FrameOf(At(t, addr)) == FrameOf(At(u, addr)))
  }

  /** They agree wherever nothing covers the cell; under cover they may differ in any number of cells. */
  ghost predicate AgreeUncovered(t: Tree, u: Tree, cell: string, o: Opts, sensitive: Names) {
    forall addr :: !Covered(cell, addr, o, sensitive) ==> AgreeAt(t, u, addr)
  }

  lemma FrameOut(t: Tree, cell: string, o: Opts, sensitive: Names)
    ensures FrameOf(Unsealed(t, cell, o, sensitive)) == FrameOf(t)
  {
    match t
    case AnyMap(m) => assert Unsealed(t, cell, o, sensitive).fields.Keys == m.Keys;
    case StrMap(m) => assert Unsealed(t, cell, o, sensitive).fields.Keys == m.Keys;
    case _ =>
  }

  /** Outputs of one frame with equal cells are equal. */
  lemma CellsMakeOutput(t: Tree, u: Tree, cell: string, o: Opts, sensitive: Names)
    requires FrameOf(t) == FrameOf(u)
    requires forall s :: HasCell(t, s) && HasCell(u, s) && !Marked(cell, s, o, sensitive) ==>
      Unsealed(Cell(t, s), StepPath(cell, s), o, sensitive) == Unsealed(Cell(u, s), StepPath(cell, s), o, sensitive)
    ensures Unsealed(t, cell, o, sensitive) == Unsealed(u, cell, o, sensitive)
  {
    var a, b := Unsealed(t, cell, o, sensitive), Unsealed(u, cell, o, sensitive);
    FrameOut(t, cell, o, sensitive);
    FrameOut(u, cell, o, sensitive);
    match FrameOf(t)
    case Keys(keys) =>
      assert a.AnyMap? && b.AnyMap?;
      forall k | k in keys ensures a.fields[k] == b.fields[k] {
        CellOut(t, cell, Key(k), o, sensitive);
        CellOut(u, cell, Key(k), o, sensitive);
      }
      assert a.fields == b.fields;
    case Count(n) =>
      assert a.AnyList? && b.AnyList?;
      forall i | 0 <= i < n ensures a.items[i] == b.items[i] {
        CellOut(t, cell, Idx(i), o, sensitive);
        CellOut(u, cell, Idx(i), o, sensitive);
      }
      assert a.items == b.items;
    case Leaf(_) =>
  }

  lemma AgreeBelow(t: Tree, u: Tree, cell: string, s: Step, o: Opts, sensitive: Names)
    requires AgreeUncovered(t, u, cell, o, sensitive) && HasCell(t, s) && HasCell(u, s) &&
      !Marked(cell, s, o, sensitive)
    ensures AgreeUncovered(Cell(t, s), Cell(u, s), StepPath(cell, s), o, sensitive)
  {
    forall addr | !Covered(StepPath(cell, s), addr, o, sensitive) ensures AgreeAt(Cell(t, s), Cell(u, s), addr) {
      var longer := [s] + addr;
      TailOf(s, addr);
      assert !Covered(cell, longer, o, sensitive);
      assert AgreeAt(t, u, longer);
    }
  }

  lemma {:induction false} AgreementMasksAlike(t: Tree, u: Tree, cell: string, o: Opts, sensitive: Names)
    requires AgreeUncovered(t, u, cell, o, sensitive)
    ensures Unsealed(t, cell, o, sensitive) == Unsealed(u, cell, o, sensitive)
    decreases t
  {
    assert AgreeAt(t, u, []);
    forall s | HasCell(t, s) && HasCell(u, s) && !Marked(cell, s, o, sensitive)
      ensures Unsealed(Cell(t, s), StepPath(cell, s), o, sensitive)
        == Unsealed(Cell(u, s), StepPath(cell, s), o, sensitive)
    {
      AgreeBelow(t, u, cell, s, o, sensitive);
      if HoldsTexts(t) {
        assert AgreeAt(Cell(t, s), Cell(u, s), []);
      } else {
        AgreementMasksAlike(Cell(t, s), Cell(u, s), StepPath(cell, s), o, sensitive);
      }
    }
    CellsMakeOutput(t, u, cell, o, sensitive);
  }

  lemma {:induction false} MaskedAlikeAgree(t: Tree, u: Tree, cell: string, addr: seq<Step>, o: Opts, sensitive: Names)
    requires Unsealed(t, cell, o, sensitive) == Unsealed(u, cell, o, sensitive) && !Covered(cell, addr, o, sensitive)
    ensures AgreeAt(t, u, addr)
    decreases |addr|
  {
    FrameOut(t, cell, o, sensitive);
    FrameOut(u, cell, o, sensitive);
    if addr != [] {
      var s := addr[0];
      CellOut(t, cell, s, o, sensitive);
      CellOut(u, cell, s, o, sensitive);
      if HasCell(t, s) { MaskedAlikeAgree(Cell(t, s), Cell(u, s), StepPath(cell, s), addr[1..], o, sensitive); }
    }
  }

  /** What the output tells, exactly: two payloads are masked alike if and only if they agree at every
      address that nothing covers, whatever they hold in however many covered cells. */
  lemma MaskedAlikeExactly(t: Tree, u: Tree, cell: string, o: Opts, sensitive: Names)
    ensures Unsealed(t, cell, o, sensitive) == Unsealed(u, cell, o, sensitive)
      <==> AgreeUncovered(t, u, cell, o, sensitive)
  {
    if AgreeUncovered(t, u, cell, o, sensitive) {
      AgreementMasksAlike(t, u, cell, o, sensitive);
    } else if Unsealed(t, cell, o, sensitive) == Unsealed(u, cell, o, sensitive) {
      forall addr | !Covered(cell, addr, o, sensitive) ensures AgreeAt(t, u, addr) {
        MaskedAlikeAgree(t, u, cell, addr, o, sensitive);
      }
    }
  }

  lemma SetCellFrame(t: Tree, s: Step, v: Tree)
    requires HasCell(t, s) && (HoldsTexts(t) ==> v.Text?)
    ensures var u := SetCell(t, s, v);
      FrameOf(u) == FrameOf(t) && forall r :: HasCell(u, r) <==> HasCell(t, r)
    ensures forall r :: HasCell(t, r) ==> Cell(SetCell(t, s, v), r) == if r == s then v else Cell(t, r)
  {
    match s
    case Key(k) =>
      if t.AnyMap? { assert t.fields[k := v].Keys == t.fields.Keys; }
      else { assert t.texts[k := v.s].Keys == t.texts.Keys; }
    case Idx(i) =>
  }

  /** One covered cell, at any depth, may hold anything. */
  lemma {:induction false} HiddenIsUnread(t: Tree, cell: string, addr: seq<Step>, v: Tree, o: Opts, sensitive: Names)
    requires Fits(t, addr, v) && Covered(cell, addr, o, sensitive)
    ensures Unsealed(Put(t, addr, v), cell, o, sensitive) == Unsealed(t, cell, o, sensitive)
    decreases |addr|
  {
    var s := addr[0];
    var put := Put(Cell(t, s), addr[1..], v);
    SetCellFrame(t, s, put);
    if !Marked(cell, s, o, sensitive) { HiddenIsUnread(Cell(t, s), StepPath(cell, s), addr[1..], v, o, sensitive); }
    CellsMakeOutput(SetCell(t, s, put), t, cell, o, sensitive);
  }

  /** And a cell that nothing covers still shows: its text comes through unless it names a vault. */
  lemma {:induction false} UncoveredShows(t: Tree, cell: string, addr: seq<Step>, o: Opts, sensitive: Names)
    requires Leads(t, addr) && !Covered(cell, addr, o, sensitive)
    ensures var out := Unsealed(t, cell, o, sensitive);
      Leads(out, addr) && At(out, addr) == Unsealed(At(t, addr), PathFrom(cell, addr), o, sensitive)
    decreases |addr|
  {
    if addr != [] {
      CellOut(t, cell, addr[0], o, sensitive);
      UncoveredShows(Cell(t, addr[0]), StepPath(cell, addr[0]), addr[1..], o, sensitive);
    }
  }

  // ---- The output, cell by cell -----------------------------------------------------------

  /** Some part of the text is a vault reference. */
  ghost predicate HoldsReference(s: string) {
    exists i: nat, m: nat, j: nat :: IsWord(s, i, m, j)
  }

  lemma HoldsExactly(s: string)
    ensures ContainsRef(s) <==> HoldsReference(s)
  {
    forall i: nat ensures HasRef(s, i) <==> exists m: nat, j: nat :: IsWord(s, i, m, j) { RefIsLongestWord(s, i); }
    if HoldsReference(s) {
      var i: nat, m: nat, j: nat :| IsWord(s, i, m, j);
      assert HasRef(s, i) && 0 <= i < |s|;
    }
    if ContainsRef(s) { var i :| 0 <= i < |s| && HasRef(s, i); }
  }

  lemma HiddenHoldsNone()
    ensures !HoldsReference(MASKED)
  {
    HoldsExactly(MASKED);
    forall i: nat ensures !HasRef(MASKED, i) {
      if MarkerAt(MASKED, i) { assert MASKED[i] == MASKED[i..i + 6][0] == 'v'; }
    }
  }

  /** An uncovered cell: a text with a reference is hidden and any other comes through, a container keeps its
      keys or its length, and anything else is copied. nil is what a nil map becomes. */
  ghost predicate ShownAs(x: Tree, y: Tree, nil: Tree) {
    match x
    case Text(s) => y == if HoldsReference(s) then HIDDEN else Text(s)
    case NilMap => y == nil
    case AnyMap(m) => y.AnyMap? && y.fields.Keys == m.Keys
    case StrMap(m) => y.AnyMap? && y.fields.Keys == m.Keys
    case AnyList(xs) => y.AnyList? && |y.items| == |xs|
    case StrList(xs) => y.AnyList? && |y.items| == |xs|
    case _ => y == x
  }

  /** Some cell above the last one is covered. */
  predicate CoveredAbove(cell: string, addr: seq<Step>, o: Opts, sensitive: Names) {
    addr != [] && Covered(cell, addr[..|addr| - 1], o, sensitive)
  }

  lemma AboveNext(cell: string, addr: seq<Step>, o: Opts, sensitive: Names)
    requires |addr| > 1
    ensures CoveredAbove(cell, addr, o, sensitive)
      <==> Marked(cell, addr[0], o, sensitive) || CoveredAbove(StepPath(cell, addr[0]), addr[1..], o, sensitive)
  {
    var above := addr[..|addr| - 1];
    assert above[0] == addr[0] && above[1..] == addr[1..][..|addr[1..]| - 1];
  }

  lemma FrameShown(t: Tree, cell: string, o: Opts, sensitive: Names)
    ensures ShownAs(t, Unsealed(t, cell, o, sensitive), AnyMap(map[]))
  {
    FrameOut(t, cell, o, sensitive);
    if t.Text? { HoldsExactly(t.s); }
  }

  lemma NothingInside(t: Tree, addr: seq<Step>)
    requires t.Text?
    ensures Leads(t, addr) <==> addr == []
  {
  }

  /** The whole output: a cell is there if it is in the payload and none above it is covered, and it is
      hidden if it is covered and shown if it is not. */
  lemma {:induction false} SealedExactly(t: Tree, cell: string, addr: seq<Step>, o: Opts, sensitive: Names)
    ensures var out := Unsealed(t, cell, o, sensitive);
      && (Leads(out, addr) <==> Leads(t, addr) && !CoveredAbove(cell, addr, o, sensitive))
      && (Leads(out, addr) && Covered(cell, addr, o, sensitive) ==> At(out, addr) == HIDDEN)
      && (Leads(out, addr) && !Covered(cell, addr, o, sensitive) ==> ShownAs(At(t, addr), At(out, addr), AnyMap(map[])))
    decreases |addr|
  {
    if addr == [] {
      FrameShown(t, cell, o, sensitive);
    } else {
      var next, rest := StepPath(cell, addr[0]), addr[1..];
      CellOut(t, cell, addr[0], o, sensitive);
      if |addr| > 1 { AboveNext(cell, addr, o, sensitive); } else { assert addr[..0] == []; }
      if HasCell(t, addr[0]) {
        if Marked(cell, addr[0], o, sensitive) { NothingInside(HIDDEN, rest); }
        else { SealedExactly(Cell(t, addr[0]), next, rest, o, sensitive); }
      }
    }
  }

  /** No text in the output holds a reference. */
  lemma NoReferenceShows(t: Tree, cell: string, addr: seq<Step>, o: Opts, sensitive: Names)
    requires var out := Unsealed(t, cell, o, sensitive); Leads(out, addr) && At(out, addr).Text?
    ensures !HoldsReference(At(Unsealed(t, cell, o, sensitive), addr).s)
  {
    SealedExactly(t, cell, addr, o, sensitive);
    HiddenHoldsNone();
  }

  /** In the two-layer walk a cell is covered by a sensitive key on the way to it. */
  predicate Keyed(addr: seq<Step>, sensitive: Names) {
    exists i :: 0 <= i < |addr| && addr[i].Key? && sensitive(addr[i].k)
  }

  lemma KeyedNext(addr: seq<Step>, sensitive: Names)
    requires addr != []
    ensures Keyed(addr, sensitive) <==> (addr[0].Key? && sensitive(addr[0].k)) || Keyed(addr[1..], sensitive)
  {
    if Keyed(addr[1..], sensitive) {
      var i :| 0 <= i < |addr[1..]| && addr[1..][i].Key? && sensitive(addr[1..][i].k);
      assert addr[i + 1] == addr[1..][i];
    }
    if i :| 0 <= i < |addr| && addr[i].Key? && sensitive(addr[i].k) && i > 0 { assert addr[1..][i - 1] == addr[i]; }
  }

  predicate KeyedAbove(addr: seq<Step>, sensitive: Names) {
    addr != [] && Keyed(addr[..|addr| - 1], sensitive)
  }

  lemma PlainCell(t: Tree, s: Step, sensitive: Names)
    ensures HasCell(Plain(t, sensitive), s) <==> HasCell(t, s)
    ensures HasCell(t, s) ==>
      Cell(Plain(t, sensitive), s) == if s.Key? && sensitive(s.k) then HIDDEN else Plain(Cell(t, s), sensitive)
  {
  }

  lemma PlainFrame(t: Tree, sensitive: Names)
    ensures ShownAs(t, Plain(t, sensitive), NilMap)
  {
    match t
    case Text(s) => HoldsExactly(s);
    case AnyMap(m) => assert Plain(t, sensitive).fields.Keys == m.Keys;
    case StrMap(m) => assert Plain(t, sensitive).fields.Keys == m.Keys;
    case _ =>
  }

  lemma {:induction false} PlainExactly(t: Tree, addr: seq<Step>, sensitive: Names)
    ensures var out := Plain(t, sensitive);
      && (Leads(out, addr) <==> Leads(t, addr) && !KeyedAbove(addr, sensitive))
      && (Leads(out, addr) && Keyed(addr, sensitive) ==> At(out, addr) == HIDDEN)
      && (Leads(out, addr) && !Keyed(addr, sensitive) ==> ShownAs(At(t, addr), At(out, addr), NilMap))
    decreases |addr|
  {
    if addr == [] {
      PlainFrame(t, sensitive);
    } else {
      var rest := addr[1..];
      PlainCell(t, addr[0], sensitive);
      KeyedNext(addr, sensitive);
      KeyedAboveNext(addr, sensitive);
      if HasCell(t, addr[0]) {
        if addr[0].Key? && sensitive(addr[0].k) { NothingInside(HIDDEN, rest); }
        else { PlainExactly(Cell(t, addr[0]), rest, sensitive); }
      }
    }
  }

  lemma KeyedAboveNext(addr: seq<Step>, sensitive: Names)
    requires addr != []
    ensures KeyedAbove(addr, sensitive)
      <==> addr[1..] != [] && ((addr[0].Key? && sensitive(addr[0].k)) || KeyedAbove(addr[1..], sensitive))
  {
    var above := addr[..|addr| - 1];
    if |addr| > 1 {
      KeyedNext(above, sensitive);
      assert above[0] == addr[0] && above[1..] == addr[1..][..|addr[1..]| - 1];
    }
  }

  lemma NoReferenceShowsPlain(t: Tree, addr: seq<Step>, sensitive: Names)
    requires Leads(Plain(t, sensitive), addr) && At(Plain(t, sensitive), addr).Text?
    ensures !HoldsReference(At(Plain(t, sensitive), addr).s)
  {
    PlainExactly(t, addr, sensitive);
    HiddenHoldsNone();
  }

  // ---- One entry for every index ----------------------------------------------------------

  /** The generalised path, written from the address: no index in it. */
  function GeneralFrom(cell: string, addr: seq<Step>): string
    decreases |addr|
  {
    if addr == [] then cell
    else
      var s := addr[0];
      GeneralFrom(match s case Key(k) => JoinPath(cell, NormalizeIdx(k)) case Idx(_) => cell + "[]", addr[1..])
  }

  lemma {:induction false} GeneralIsNormalized(cell: string, addr: seq<Step>)
    ensures NormalizeIdx(PathFrom(cell, addr)) == GeneralFrom(NormalizeIdx(cell), addr)
    decreases |addr|
  {
    if addr != [] {
      GeneralIsNormalized(StepPath(cell, addr[0]), addr[1..]);
      match addr[0]
      case Key(k) => KeyGeneralizes(cell, k);
      case Idx(i) =>
        assert JoinIdx(cell, i) + "" == JoinIdx(cell, i);
        IndexGeneralizes(cell, i, "");
        assert NormalizeIdx(cell) + "[]" + "" == NormalizeIdx(cell) + "[]";
    }
  }

  lemma {:induction false} SecretPathCovers(cell: string, addr: seq<Step>, o: Opts, sensitive: Names)
    requires addr != [] && PathIsSecret(PathFrom(cell, addr), o)
    ensures Covered(cell, addr, o, sensitive)
    decreases |addr|
  {
    if |addr| > 1 { SecretPathCovers(StepPath(cell, addr[0]), addr[1..], o, sensitive); }
    else { assert PathFrom(StepPath(cell, addr[0]), addr[1..]) == StepPath(cell, addr[0]); }
  }

  /** A schema given as a set of paths declares a cell by its path or by its path without the indices. */
  lemma PathSetExactly(paths: set<string>, addr: seq<Step>)
    ensures PathSet(paths).isSecret(PathFrom("", addr)) <==>
      PathFrom("", addr) in paths || GeneralFrom("", addr) in paths
  {
    GeneralIsNormalized("", addr);
  }

  /** An address spelled out: a dot before every key but a first one, and every index in brackets. */
  function Spelled(addr: seq<Step>): string {
    if addr == [] then ""
    else
      var above := Spelled(addr[..|addr| - 1]);
      above + match addr[|addr| - 1]
              case Key(k) => (if above == "" then "" else ".") + k
              case Idx(i) => "[" + Naming.Decimal(i) + "]"
  }

  lemma {:induction false} PathIsSpelled(addr: seq<Step>)
    ensures PathFrom("", addr) == Spelled(addr)
    decreases |addr|
  {
    if addr != [] {
      var above, s := addr[..|addr| - 1], addr[|addr| - 1];
      PathIsSpelled(above);
      assert addr == above + [s];
      PathOn("", above, s);
      match s
      case Key(k) => SpelledKey(Spelled(above), k);
      case Idx(i) => Regroup(Spelled(above), "[" + Naming.Decimal(i), "]");
    }
  }

  lemma SpelledKey(path: string, k: string)
    ensures JoinPath(path, k) == path + ((if path == "" then "" else ".") + k)
  {
    if path == "" { assert path + ("" + k) == k; } else { Regroup(path, ".", k); }
  }

  /** The cell at the end of the address is marked: its path is declared by the schema or listed, exactly or
      with its indices dropped, or its key is a sensitive name. */
  ghost predicate MarkedAt(addr: seq<Step>, o: Opts, sensitive: Names) {
    addr != [] &&
    (|| (o.schema.Schema? && o.schema.isSecret(PathFrom("", addr)))
     || PathFrom("", addr) in o.paths || GeneralFrom("", addr) in o.paths
     || (addr[|addr| - 1].Key? && sensitive(addr[|addr| - 1].k)))
  }

  /** A cell is covered exactly when it, or one above it, is marked. */
  lemma CoveredExactly(addr: seq<Step>, o: Opts, sensitive: Names)
    ensures Covered("", addr, o, sensitive) <==> exists n :: 0 < n <= |addr| && MarkedAt(addr[..n], o, sensitive)
  {
    CoveredFrom("", [], addr, o, sensitive);
    NothingBefore(addr);
    forall n | 0 < n <= |addr| ensures MarkedAt(addr[..n], o, sensitive) <==> MarkedStep([], addr, n, o, sensitive) {
      NothingBefore(addr[..n]);
      MarkedByPath(addr[..n], o, sensitive);
    }
  }

  /** The n-th cell of the rest of an address is marked by its path or its key. */
  ghost predicate MarkedStep(before: seq<Step>, addr: seq<Step>, n: int, o: Opts, sensitive: Names) {
    && 0 < n <= |addr|
    && (PathIsSecret(PathFrom("", before + addr[..n]), o) || (addr[n - 1].Key? && sensitive(addr[n - 1].k)))
  }

  lemma MarkedByPath(addr: seq<Step>, o: Opts, sensitive: Names)
    requires addr != []
    ensures MarkedAt(addr, o, sensitive)
      <==> PathIsSecret(PathFrom("", addr), o) || (addr[|addr| - 1].Key? && sensitive(addr[|addr| - 1].k))
  {
    GeneralIsNormalized("", addr);
  }

  lemma {:induction false} PathOn(cell: string, addr: seq<Step>, s: Step)
    ensures PathFrom(cell, addr + [s]) == StepPath(PathFrom(cell, addr), s)
    decreases |addr|
  {
    if addr == [] {
      assert ([] + [s])[1..] == [] && ([] + [s])[0] == s;
    } else {
      DropPast(addr, [s], 1);
      PathOn(StepPath(cell, addr[0]), addr[1..], s);
    }
  }

  lemma {:induction false} CoveredFrom(cell: string, before: seq<Step>, addr: seq<Step>, o: Opts, sensitive: Names)
    requires cell == PathFrom("", before)
    ensures Covered(cell, addr, o, sensitive) <==> exists n :: MarkedStep(before, addr, n, o, sensitive)
    decreases |addr|
  {
    if addr != [] {
      var s, rest := addr[0], addr[1..];
      var longer := before + [s];
      PathOn("", before, s);
      CoveredFrom(StepPath(cell, s), longer, rest, o, sensitive);
      assert addr[..1] == [s];
      assert MarkedStep(before, addr, 1, o, sensitive) <==> Marked(cell, s, o, sensitive);
      if n :| MarkedStep(longer, rest, n, o, sensitive) { StepOn(before, addr, n, o, sensitive); }
      if n :| MarkedStep(before, addr, n, o, sensitive) && n > 1 { StepOn(before, addr, n - 1, o, sensitive); }
    }
  }

  lemma StepOn(before: seq<Step>, addr: seq<Step>, n: int, o: Opts, sensitive: Names)
    requires addr != [] && 0 < n
    ensures MarkedStep(before, addr, n + 1, o, sensitive)
      <==> MarkedStep(before + [addr[0]], addr[1..], n, o, sensitive)
  {
    if n < |addr| {
      assert before + addr[..n + 1] == before + [addr[0]] + addr[1..][..n];
      assert addr[n] == addr[1..][n - 1];
    }
  }

  /** A generalised entry, in the seal set or in a schema given as one, hides the cell at every index:
      what it holds leaves no trace in the output. */
  lemma GeneralEntryHidesEveryIndex(payload: Tree, addr: seq<Step>, v: Tree, o: Opts, sensitive: Names)
    requires payload.AnyMap? && addr != [] && Fits(payload, addr, v)
    requires GeneralFrom("", addr) in o.paths
      || exists paths :: o.schema == PathSet(paths) && GeneralFrom("", addr) in paths
    ensures Covered("", addr, o, sensitive)
    ensures Unsealed(Put(payload, addr, v), "", o, sensitive) == Sealed(payload, o, sensitive)
  {
    GeneralIsNormalized("", addr);
    SecretPathCovers("", addr, o, sensitive);
    HiddenIsUnread(payload, "", addr, v, o, sensitive);
  }

  // ---- The walks as they run --------------------------------------------------------------

  method MaskSecrets(payload: Tree, sensitive: Names) returns (out: Tree)
    requires payload.NilMap? || payload.AnyMap?
    ensures out == Plain(payload, sensitive)
    decreases payload, 0
  {
    if payload.NilMap? { return payload; }
    var m := payload.fields;
    var done: map<string, Tree>, left := map[], m.Keys;
    while left != {}
      invariant left <= m.Keys && done.Keys == m.Keys - left
      invariant forall k :: k in done ==> done[k] == if sensitive(k) then HIDDEN else Plain(m[k], sensitive)
      decreases |left|
    {
      var k :| k in left;
      var v := HIDDEN;
      if !sensitive(k) { v := MaskValue(m[k], sensitive); }
      done, left := done[k := v], left - {k};
    }
    assert done == Plain(payload, sensitive).fields;
    out := AnyMap(done);
  }

  method MaskValue(t: Tree, sensitive: Names) returns (out: Tree)
    ensures out == Plain(t, sensitive)
    decreases t, 1
  {
    match t
    case AnyMap(_) => out := MaskSecrets(t, sensitive);
    case AnyList(xs) =>
      var done := [];
      for i := 0 to |xs|
        invariant |done| == i && forall j :: 0 <= j < i ==> done[j] == Plain(xs[j], sensitive)
      {
        var v := MaskValue(xs[i], sensitive);
        done := done + [v];
      }
      out := AnyList(done);
    case StrMap(m) => out := MaskTexts(m, "", ZERO, sensitive);
      assert out.fields == Plain(t, sensitive).fields;
    case StrList(xs) => out := MaskLines(xs, "", ZERO, sensitive);
      assert out.items == Plain(t, sensitive).items;
    case Text(s) => out := MaskText(s);
    case _ => out := t;
  }

  method MaskTexts(m: map<string, string>, cell: string, o: Opts, sensitive: Names) returns (out: Tree)
    ensures out == Unsealed(StrMap(m), cell, o, sensitive)
  {
    var done: map<string, Tree>, left := map[], m.Keys;
    while left != {}
      invariant left <= m.Keys && done.Keys == m.Keys - left
      invariant forall k :: k in done ==>
        done[k] == if sensitive(k) || PathIsSecret(JoinPath(cell, k), o) then HIDDEN else MaskText(m[k])
      decreases |left|
    {
      var k :| k in left;
      var v := if PathIsSecret(JoinPath(cell, k), o) then HIDDEN else if sensitive(k) then HIDDEN else MaskText(m[k]);
      done, left := done[k := v], left - {k};
    }
    assert done == Unsealed(StrMap(m), cell, o, sensitive).fields;
    out := AnyMap(done);
  }

  method MaskLines(xs: seq<string>, cell: string, o: Opts, sensitive: Names) returns (out: Tree)
    ensures out == Unsealed(StrList(xs), cell, o, sensitive)
  {
    var done := [];
    for i := 0 to |xs|
      invariant |done| == i
      invariant forall j :: 0 <= j < i ==>
        done[j] == if PathIsSecret(JoinIdx(cell, j), o) then HIDDEN else MaskText(xs[j])
    {
      done := done + [if PathIsSecret(JoinIdx(cell, i), o) then HIDDEN else MaskText(xs[i])];
    }
    out := AnyList(done);
  }

  method MaskUnsealedValue(t: Tree, cell: string, o: Opts, sensitive: Names) returns (out: Tree)
    ensures out == Unsealed(t, cell, o, sensitive)
    decreases t, 1
  {
    match t
    case NilMap => out := AnyMap(map[]);
    case AnyMap(m) => out := MaskMapLayered(t, cell, o, sensitive);
    case AnyList(xs) =>
      var done := [];
      for i := 0 to |xs|
        invariant |done| == i && forall j :: 0 <= j < i ==> done[j] == Layered(xs[j], JoinIdx(cell, j), o, sensitive)
      {
        var v := HIDDEN;
        if !PathIsSecret(JoinIdx(cell, i), o) { v := MaskUnsealedValue(xs[i], JoinIdx(cell, i), o, sensitive); }
        done := done + [v];
      }
      out := AnyList(done);
    case StrMap(m) => out := MaskTexts(m, cell, o, sensitive);
    case StrList(xs) => out := MaskLines(xs, cell, o, sensitive);
    case Text(s) => out := MaskText(s);
    case _ => out := t;
  }

  method MaskMapLayered(t: Tree, cell: string, o: Opts, sensitive: Names) returns (out: Tree)
    requires t.AnyMap?
    ensures out == Unsealed(t, cell, o, sensitive)
    decreases t, 0
  {
    var done: map<string, Tree>, left := map[], t.fields.Keys;
    while left != {}
      invariant left <= t.fields.Keys && done.Keys == t.fields.Keys - left
      invariant forall k :: k in done ==>
        done[k] == if sensitive(k) then HIDDEN else Layered(t.fields[k], JoinPath(cell, k), o, sensitive)
      decreases |left|
    {
      var k :| k in left;
      var v := HIDDEN;
      if !PathIsSecret(JoinPath(cell, k), o) && !sensitive(k) {
        v := MaskUnsealedValue(t.fields[k], JoinPath(cell, k), o, sensitive);
      }
      done, left := done[k := v], left - {k};
    }
    assert done == Unsealed(t, cell, o, sensitive).fields;
    out := AnyMap(done);
  }

  method MaskSecretsSealed(payload: Tree, o: Opts, sensitive: Names) returns (out: Tree)
    requires payload.NilMap? || payload.AnyMap?
    ensures out == Sealed(payload, o, sensitive)
  {
    if payload.NilMap? { return payload; }
    out := MaskMapLayered(payload, "", o, sensitive);
  }
}
