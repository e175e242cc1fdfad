/** Overlay layers (`layers.py`, `_images.py`): the resolved lowerdir taken apart into layers and put together
    again, its short form, and the check that the mount options fit one page (`defaults.py`). */
module Overlay {
  import opened Text

  // ----- paths -----

  /** A pure POSIX path: what it starts with, and its components. */
  datatype Path = Path(anchor: string, parts: seq<string>)

  function KeptParts(parts: seq<string>): seq<string> {
    if parts == [] then []
    else (if parts[0] == "" || parts[0] == "." then [] else [parts[0]]) + KeptParts(parts[1..])
  }

  function AnchorOf(s: string): string {
    if s == "" || s[0] != '/' then ""
    else if |s| > 1 && s[1] == '/' && (|s| == 2 || s[2] != '/') then "//"
    else "/"
  }

  /** `Path(s)`. */
  function ParsePath(s: string): Path {
    Path(AnchorOf(s), KeptParts(Split(s, '/')))
  }

  /** `str(p)`. */
  function PathText(p: Path): string {
    if p.anchor == "" && p.parts == [] then "." else p.anchor + Join(p.parts, '/')
  }

  function FileName(p: Path): string {
    if p.parts == [] then "" else p.parts[|p.parts| - 1]
  }

  function Parent(p: Path): Path {
    if p.parts == [] then p else Path(p.anchor, p.parts[..|p.parts| - 1])
  }

  /** `p / name` for a single component. */
  function Child(p: Path, name: string): Path {
    Path(p.anchor, p.parts + [name])
  }

  predicate GoodPart(s: string) {
    s != "" && s != "." && '/' !in s
  }

  predicate GoodPath(p: Path) {
    (p.anchor == "" || p.anchor == "/" || p.anchor == "//") && forall c | c in p.parts :: GoodPart(c)
  }

  lemma {:induction false} KeptAreGood(parts: seq<string>)
    requires forall c | c in parts :: '/' !in c
    ensures forall c | c in KeptParts(parts) :: GoodPart(c)
  {
    if parts == [] {
    } else {
      assert parts[0] in parts;
      KeptAreGood(parts[1..]);
    }
  }

  lemma ParsedIsGood(s: string)
    ensures GoodPath(ParsePath(s))
  {
    SplitPartsFree(s, '/');
    KeptAreGood(Split(s, '/'));
  }

  lemma {:induction false} GoodAreKept(parts: seq<string>)
    requires forall c | c in parts :: GoodPart(c)
    ensures KeptParts(parts) == parts
  {
    if parts == [] {
    } else {
      assert parts[0] in parts;
      GoodAreKept(parts[1..]);
    }
  }

  lemma KeptOfJoin(parts: seq<string>)
    requires forall c | c in parts :: GoodPart(c)
    ensures KeptParts(Split(Join(parts, '/'), '/')) == parts
  {
    if parts == [] {
      assert Split("", '/') == [""] && [""][1..] == [];
    } else {
      SplitOfJoin(parts, '/');
      GoodAreKept(parts);
    }
  }

  lemma KeptAfterSlash(s: string)
    ensures KeptParts(Split("/" + s, '/')) == KeptParts(Split(s, '/'))
  {
    SplitAtSeparator("", '/', s);
    assert "/" + s == "" + ['/'] + s;
    assert ([""] + Split(s, '/'))[1..] == Split(s, '/');
  }

  lemma DotIsEmpty()
    ensures KeptParts(Split(".", '/')) == []
  {
    SplitFree(".", '/');
    assert ["."][1..] == [];
  }

  lemma PartsReadBack(p: Path)
    requires GoodPath(p)
    ensures KeptParts(Split(PathText(p), '/')) == p.parts
  {
    hide KeptParts, Split, Join;
    var tail := Join(p.parts, '/');
    KeptOfJoin(p.parts);
    KeptAfterSlash(tail);
    KeptAfterSlash("/" + tail);
    DotIsEmpty();
    assert p.anchor == "" ==> p.anchor + tail == tail;
    assert p.anchor == "//" ==> p.anchor + tail == "/" + ("/" + tail);
  }

  lemma AnchorReadsBack(p: Path)
    requires GoodPath(p)
    ensures AnchorOf(PathText(p)) == p.anchor
  {
    if p.parts != [] {
      JoinedStart(p.parts, '/');
    } else {
      assert Join(p.parts, '/') == "";
    }
    hide Join;
    assert p.anchor == "" ==> p.anchor + Join(p.parts, '/') == Join(p.parts, '/');
  }

  /** A path's text reads back as the path. */
  lemma PathReadsBack(p: Path)
    requires GoodPath(p)
    ensures ParsePath(PathText(p)) == p
  {
    PartsReadBack(p);
    AnchorReadsBack(p);
  }

  // ----- the lowerdir -----

  function Entries(layers: string): seq<string> {
    NonEmpty(Split(layers, ':'))
  }

  /** `<root>/<id>/diff`. */
  predicate Shaped(p: Path) {
    FileName(p) == "diff" && Parent(p) != Parent(Parent(p))
  }

  function RootText(e: string): string {
    PathText(Parent(Parent(ParsePath(e))))
  }

  predicate Uniform(entries: seq<string>) {
    entries != [] && forall i | 0 <= i < |entries| :: Shaped(ParsePath(entries[i])) && RootText(entries[i]) == RootText(entries[0])
  }

  /** The stripped text of a layer's `link` file, empty when there is none; by the layer's directory. */
  type Links = Path -> string

  function ShortPart(e: string, link: Links): string {
    var dir := Parent(ParsePath(e));
    if link(dir) != "" then "l/" + link(dir) else FileName(dir) + "/diff"
  }

  function ShortParts(entries: seq<string>, link: Links): (parts: seq<string>)
    ensures |parts| == |entries| && forall i | 0 <= i < |entries| :: parts[i] == ShortPart(entries[i], link)
  {
    seq(|entries|, i requires 0 <= i < |entries| => ShortPart(entries[i], link))
  }

  /** What `to_overlay_lowerdir` answers: the shared root and the short lowerdir, or no root and the input. */
  function ShortForm(layers: string, link: Links): (string, string) {
    var entries := Entries(layers);
    if Uniform(entries) then (RootText(entries[0]), Join(ShortParts(entries, link), ':')) else ("", layers)
  }

  lemma NotUniform(entries: seq<string>, i: nat)
    requires i < |entries| && (!Shaped(ParsePath(entries[i])) || RootText(entries[i]) != RootText(entries[0]))
    ensures !Uniform(entries)
  {
    hide ParsePath, Shaped, RootText;
  }

  lemma NoEntries()
    ensures !Uniform([])
  {
  }

  lemma AllUniform(entries: seq<string>)
    requires entries != []
    requires forall j | 0 <= j < |entries| :: Shaped(ParsePath(entries[j])) && RootText(entries[j]) == RootText(entries[0])
    ensures Uniform(entries)
  {
    hide ParsePath, Shaped, RootText;
  }

  method ToOverlayLowerdir(layers: string, link: Links) returns (root: string, lower: string)
    ensures (root, lower) == ShortForm(layers, link)
  {
    hide ParsePath, PathText, Join, Entries, Shaped, Uniform, Parent, ShortParts;
    var entries := Entries(layers);
    if entries == [] {
      NoEntries();
      return "", layers;
    }
    root := "";
    var parsed: seq<Path> := [];
    for i := 0 to |entries|
      invariant |parsed| == i && forall j | 0 <= j < i :: parsed[j] == ParsePath(entries[j])
      invariant forall j | 0 <= j < i :: Shaped(ParsePath(entries[j])) && RootText(entries[j]) == RootText(entries[0])
      invariant i > 0 ==> root == RootText(entries[0])
    {
      var p := ParsePath(entries[i]);
      if !Shaped(p) {
        NotUniform(entries, i);
        return "", layers;
      }
      var layerRoot := Parent(Parent(p));
      if i == 0 {
        root := PathText(layerRoot);
      } else if PathText(layerRoot) != root {
        NotUniform(entries, i);
        return "", layers;
      }
      parsed := parsed + [p];
    }
    AllUniform(entries);
    var relParts: seq<string> := [];
    for i := 0 to |parsed|
      invariant relParts == ShortParts(entries, link)[..i]
    {
      var dir := Parent(parsed[i]);
      var short := link(dir);
      relParts := relParts + [if short != "" then "l/" + short else FileName(dir) + "/diff"];
    }
    assert relParts == ShortParts(entries, link);
    lower := Join(relParts, ':');
  }

  datatype Error = StateError

  datatype Layer = Layer(id: string, short: string)

  /** The snapshot of an OCI image's layers. */
  datatype Image = Image(root: Path, layers: seq<Layer>)

  function LayerOf(e: string, link: Links): Layer {
    var dir := Parent(ParsePath(e));
    Layer(FileName(dir), link(dir))
  }

  function Layers(entries: seq<string>, link: Links): (ls: seq<Layer>)
    ensures |ls| == |entries| && forall i | 0 <= i < |entries| :: ls[i] == LayerOf(entries[i], link)
  {
    seq(|entries|, i requires 0 <= i < |entries| => LayerOf(entries[i], link))
  }

  predicate AllShaped(entries: seq<string>) {
    forall i | 0 <= i < |entries| :: Shaped(ParsePath(entries[i]))
  }

  /** What `_decompose_layers` answers. */
  function Decomposed(layers: string, overlayRoot: string, link: Links): Result<Image, Error> {
    var entries := Entries(layers);
    if entries == [] || !AllShaped(entries) then Err(StateError)
    else if overlayRoot != "" then Ok(Image(ParsePath(overlayRoot), Layers(entries, link)))
    else if Uniform(entries) then Ok(Image(ParsePath(RootText(entries[0])), Layers(entries, link)))
    else Err(StateError)
  }

  function RootTexts(entries: seq<string>): set<string> {
    set i | 0 <= i < |entries| :: RootText(entries[i])
  }

  lemma SetAtLeastTwo(s: set<string>, a: string, b: string)
    requires a in s && b in s && a != b
    ensures |s| >= 2
  {
    var rest := s - {a};
    assert b in rest && |rest| == |s| - 1;
    assert |rest| > 0;
  }

  lemma OneRoot(entries: seq<string>)
    requires entries != [] && AllShaped(entries)
    ensures |RootTexts(entries)| == 1 <==> Uniform(entries)
    ensures |RootTexts(entries)| == 1 ==> RootTexts(entries) == {RootText(entries[0])}
  {
    hide RootText, Shaped;
    var roots, first := RootTexts(entries), RootText(entries[0]);
    assert first in roots;
    if Uniform(entries) {
      assert roots == {first};
    } else {
      var i :| 0 <= i < |entries| && RootText(entries[i]) != first;
      assert RootText(entries[i]) in roots;
      SetAtLeastTwo(roots, first, RootText(entries[i]));
    }
  }

  method DecomposeLayers(layers: string, overlayRoot: string, link: Links) returns (r: Result<Image, Error>)
    ensures r == Decomposed(layers, overlayRoot, link)
  {
    hide ParsePath, PathText, Entries, Shaped;
    var entries := Entries(layers);
    if entries == [] {
      return Err(StateError);
    }
    var shaped := CheckShapes(entries);
    if !shaped {
      return Err(StateError);
    }
    var roots := CollectRoots(entries);
    OneRoot(entries);
    hide RootTexts, Uniform, RootText;
    var root;
    if overlayRoot != "" {
      root := ParsePath(overlayRoot);
    } else if |roots| == 1 {
      var text :| text in roots;
      root := ParsePath(text);
    } else {
      return Err(StateError);
    }
    var ls: seq<Layer> := [];
    for i := 0 to |entries|
      invariant ls == Layers(entries, link)[..i]
    {
      var dir := Parent(ParsePath(entries[i]));
      ls := ls + [Layer(FileName(dir), link(dir))];
    }
    assert ls == Layers(entries, link);
    r := Ok(Image(root, ls));
  }

  method CheckShapes(entries: seq<string>) returns (shaped: bool)
    ensures shaped == AllShaped(entries)
  {
    hide ParsePath, Shaped;
    for i := 0 to |entries|
      invariant forall j | 0 <= j < i :: Shaped(ParsePath(entries[j]))
    {
      if !Shaped(ParsePath(entries[i])) {
        return false;
      }
    }
    return true;
  }

  method CollectRoots(entries: seq<string>) returns (roots: set<string>)
    ensures roots == RootTexts(entries)
  {
    hide ParsePath, PathText, Parent;
    roots := {};
    for i := 0 to |entries|
      invariant roots == set j | 0 <= j < i :: RootText(entries[j])
    {
      roots := roots + {PathText(Parent(Parent(ParsePath(entries[i]))))};
    }
  }

  // ----- rendering -----

  function LayerText(root: Path, l: Layer): string {
    PathText(Child(Child(root, l.id), "diff"))
  }

  function LayerTexts(root: Path, ls: seq<Layer>): (ts: seq<string>)
    ensures |ts| == |ls| && forall i | 0 <= i < |ls| :: ts[i] == LayerText(root, ls[i])
  {
    seq(|ls|, i requires 0 <= i < |ls| => LayerText(root, ls[i]))
  }

  /** `_render_lowerdir_abs`. */
  function RenderAbs(image: Image): string {
    Join(LayerTexts(image.root, image.layers), ':')
  }

  /** The entries in canonical spelling. */
  function Canonical(entries: seq<string>): (cs: seq<string>)
    ensures |cs| == |entries| && forall i | 0 <= i < |entries| :: cs[i] == PathText(ParsePath(entries[i]))
  {
    seq(|entries|, i requires 0 <= i < |entries| => PathText(ParsePath(entries[i])))
  }

  lemma ShapedIsChild(p: Path)
    requires Shaped(p)
    ensures p == Child(Child(Parent(Parent(p)), FileName(Parent(p))), "diff")
  {
    var n := |p.parts|;
    assert n >= 2;
    assert p.parts == p.parts[..n - 2] + [p.parts[n - 2]] + [p.parts[n - 1]];
  }

  lemma GoodParent(p: Path)
    requires GoodPath(p)
    ensures GoodPath(Parent(p))
  {
  }

  lemma TextNonEmpty(p: Path)
    requires GoodPath(p)
    ensures PathText(p) != ""
  {
    if p.parts != [] { JoinedStart(p.parts, '/'); }
  }

  lemma RootReadsBack(e: string)
    ensures ParsePath(RootText(e)) == Parent(Parent(ParsePath(e)))
    ensures RootText(e) != ""
  {
    ParsedIsGood(e);
    GoodParent(ParsePath(e));
    GoodParent(Parent(ParsePath(e)));
    PathReadsBack(Parent(Parent(ParsePath(e))));
    TextNonEmpty(Parent(Parent(ParsePath(e))));
    hide ParsePath, PathText;
  }

  lemma SameRoot(entries: seq<string>, i: nat)
    requires Uniform(entries) && i < |entries|
    ensures Shaped(ParsePath(entries[i])) && ParsePath(RootText(entries[0])) == Parent(Parent(ParsePath(entries[i])))
  {
    RootReadsBack(entries[0]);
    RootReadsBack(entries[i]);
    hide ParsePath, Shaped, RootText;
  }

  /** The layers of uniform entries, rendered one by one below their root. */
  lemma LayersRender(entries: seq<string>, link: Links)
    requires Uniform(entries)
    ensures LayerTexts(ParsePath(RootText(entries[0])), Layers(entries, link)) == Canonical(entries)
  {
    RootReadsBack(entries[0]);
    var root, layers := ParsePath(RootText(entries[0])), Layers(entries, link);
    hide ParsePath, PathText, Shaped, RootText;
    forall i | 0 <= i < |entries| ensures LayerTexts(root, layers)[i] == Canonical(entries)[i] {
      SameRoot(entries, i);
      ShapedIsChild(ParsePath(entries[i]));
    }
  }

  /** Taking a resolved lowerdir apart and rendering it gives every entry back, canonically spelled and in
      order; it succeeds exactly when the entries share one root and the `<root>/<id>/diff` shape, that is,
      when the short form has a root. */
  lemma DecomposeRenders(layers: string, link: Links)
    ensures var (root, lower) := ShortForm(layers, link);
            var d := Decomposed(layers, root, link);
            && (d.Ok? <==> Uniform(Entries(layers))) && (d.Ok? <==> root != "")
            && (d.Ok? ==> RenderAbs(d.value) == Join(Canonical(Entries(layers)), ':'))
  {
    var entries := Entries(layers);
    if Uniform(entries) {
      RootReadsBack(entries[0]);
      LayersRender(entries, link);
    }
    hide Uniform, ParsePath, PathText, Shaped, LayerTexts, Canonical, Join, Entries;
  }

  predicate IsCanonical(e: string) {
    e != "" && ':' !in e && PathText(ParsePath(e)) == e
  }

  lemma {:induction false} NonEmptyStay(parts: seq<string>)
    requires forall p | p in parts :: p != ""
    ensures NonEmpty(parts) == parts
  {
    if parts == [] {
    } else {
      assert parts[0] in parts && forall p | p in parts[1..] :: p in parts;
      NonEmptyStay(parts[1..]);
    }
  }

  lemma LayerCount(layers: string, link: Links)
    ensures var d := Decomposed(layers, ShortForm(layers, link).0, link);
            d.Ok? ==> |d.value.layers| == |Entries(layers)|
  {
    hide ParsePath, PathText, Shaped, Uniform;
  }

  /** On canonical entries decomposing and rendering is the identity. */
  lemma DecomposeIdentity(entries: seq<string>, link: Links)
    requires entries != [] && forall e | e in entries :: IsCanonical(e)
    ensures var layers := Join(entries, ':');
            var d := Decomposed(layers, ShortForm(layers, link).0, link);
            d.Ok? ==> RenderAbs(d.value) == layers && |d.value.layers| == |entries|
  {
    var layers := Join(entries, ':');
    SplitOfJoin(entries, ':');
    NonEmptyStay(entries);
    DecomposeRenders(layers, link);
    forall i | 0 <= i < |entries| ensures Canonical(entries)[i] == entries[i] {
      assert entries[i] in entries;
    }
    assert Canonical(entries) == entries;
    hide Decomposed, ShortForm, RenderAbs, Uniform;
    LayerCount(layers, link);
  }

  lemma {:induction false} FromParts(parts: seq<string>, p: string)
    requires p in NonEmpty(parts)
    ensures p in parts && p != ""
  {
    if p in NonEmpty(parts[1..]) {
      FromParts(parts[1..], p);
    }
  }

  lemma {:induction false} NonEmptyFree(s: string, p: string)
    requires p in Entries(s)
    ensures ':' !in p && p != ""
  {
    SplitPartsFree(s, ':');
    FromParts(Split(s, ':'), p);
  }

  lemma {:induction false} KeptFrom(parts: seq<string>, p: string)
    requires p in KeptParts(parts)
    ensures p in parts
  {
    if p in KeptParts(parts[1..]) {
      KeptFrom(parts[1..], p);
    }
  }

  lemma PartsOfEntry(e: string)
    requires ':' !in e
    ensures ':' !in FileName(Parent(ParsePath(e)))
  {
    var parts := KeptParts(Split(e, '/'));
    forall p | p in parts ensures ':' !in p {
      KeptFrom(Split(e, '/'), p);
      SplitPartOccurs(e, '/', p);
      var at :| 0 <= at <= |e| && OccursAt(p, e, at);
      assert forall i | 0 <= i < |p| :: p[i] == e[at..at + |p|][i] == e[at + i];
    }
  }

  lemma ShortPartFree(layers: string, e: string, link: Links)
    requires e in Entries(layers) && ':' !in link(Parent(ParsePath(e)))
    ensures ':' !in ShortPart(e, link)
  {
    hide ParsePath, Entries;
    NonEmptyFree(layers, e);
    PartsOfEntry(e);
  }

  /** The short form names as many layers as there are entries, in the same order. */
  lemma ShortFormKeepsOrder(layers: string, link: Links)
    requires Uniform(Entries(layers)) && forall e | e in Entries(layers) :: ':' !in link(Parent(ParsePath(e)))
    ensures Split(ShortForm(layers, link).1, ':') == ShortParts(Entries(layers), link)
  {
    var entries := Entries(layers);
    assert entries != [];
    hide Uniform, ShortPart, Entries, RootText, ParsePath;
    var parts := ShortParts(entries, link);
    forall p | p in parts ensures ':' !in p {
      var i :| 0 <= i < |parts| && parts[i] == p;
      assert entries[i] in entries;
      ShortPartFree(layers, entries[i], link);
    }
    SplitOfJoin(parts, ':');
  }

  /** `Path(root) / relative`, for a relative text. */
  function Beneath(root: string, relative: string): Path
    requires AnchorOf(relative) == ""
  {
    Path(ParsePath(root).anchor, ParsePath(root).parts + ParsePath(relative).parts)
  }

  lemma TwoParts(a: string, b: string)
    requires GoodPart(a) && GoodPart(b)
    ensures AnchorOf(a + "/" + b) == "" && ParsePath(a + "/" + b).parts == [a, b]
  {
    hide KeptParts, Split;
    KeptOfJoin([a, b]);
    assert [a, b][1..] == [b];
    assert a + "/" + b == Join([a, b], '/');
  }

  /** What a part of the short form names below the root: `l/<link>` for a layer with a link, and the entry
      itself for one without. */
  predicate Names(root: string, part: string, e: string, link: Links) {
    && AnchorOf(part) == ""
    && var dir := Parent(ParsePath(e));
       && ParsePath(e) == Child(dir, "diff")
       && (link(dir) == "" ==> Beneath(root, part) == ParsePath(e))
       && (link(dir) != "" ==> part == "l/" + link(dir))
       && (link(dir) != "" && GoodPart(link(dir)) ==> Beneath(root, part) == Child(Child(ParsePath(root), "l"), link(dir)))
  }

  lemma PlainPart(root: string, p: Path)
    requires GoodPath(p) && Shaped(p) && ParsePath(root) == Parent(Parent(p))
    ensures AnchorOf(FileName(Parent(p)) + "/diff") == "" && Beneath(root, FileName(Parent(p)) + "/diff") == p
  {
    hide ParsePath, AnchorOf;
    var id := FileName(Parent(p));
    ShapedIsChild(p);
    assert id in p.parts;
    TwoParts(id, "diff");
    assert id + "/" + "diff" == id + "/diff";
    assert ParsePath(root).parts + [id, "diff"] == p.parts;
  }

  lemma LinkPart(root: string, link: string)
    ensures AnchorOf("l/" + link) == ""
    ensures GoodPart(link) ==> Beneath(root, "l/" + link) == Child(Child(ParsePath(root), "l"), link)
  {
    if GoodPart(link) {
      TwoParts("l", link);
      assert "l" + "/" + link == "l/" + link;
      assert ParsePath(root).parts + ["l", link] == ParsePath(root).parts + ["l"] + [link];
    }
    hide ParsePath;
  }

  lemma PartNames(entries: seq<string>, link: Links, i: nat)
    requires Uniform(entries) && i < |entries|
    ensures Names(RootText(entries[0]), ShortPart(entries[i], link), entries[i], link)
  {
    hide ParsePath, RootText, PathText, Uniform, AnchorOf, Shaped, GoodPath, Beneath;
    SameRoot(entries, i);
    ParsedIsGood(entries[i]);
    var p := ParsePath(entries[i]);
    ShapedIsChild(p);
    assert Parent(p) == Child(Parent(Parent(p)), FileName(Parent(p)));
    PlainPart(RootText(entries[0]), p);
    LinkPart(RootText(entries[0]), link(Parent(p)));
  }

  /** The short form, part by part: as many as there are entries, in the same order, each naming its layer. */
  lemma ShortFormNames(layers: string, link: Links)
    requires Uniform(Entries(layers)) && forall e | e in Entries(layers) :: ':' !in link(Parent(ParsePath(e)))
    ensures var (root, lower) := ShortForm(layers, link);
            var entries, parts := Entries(layers), Split(lower, ':');
            |parts| == |entries| && forall i | 0 <= i < |entries| :: Names(root, parts[i], entries[i], link)
  {
    ShortFormKeepsOrder(layers, link);
    var entries := Entries(layers);
    hide Uniform, ShortPart, Entries, RootText, ParsePath, Names;
    forall i | 0 <= i < |entries| ensures Names(RootText(entries[0]), ShortPart(entries[i], link), entries[i], link) {
      PartNames(entries, link, i);
    }
  }

  // ----- the mount options -----

  const MAX_LAYERS := 128

  const PAGE_LIMIT := 4096

  const MARGIN := 16

  const LINK_LENGTH := 26

  /** The options string of the overlay mount. */
  function MountOptions(lower: string, stateDir: string): string {
    var dir := ParsePath(stateDir);
    "lowerdir=" + lower + ",upperdir=" + PathText(Child(dir, "upper")) + ",workdir=" + PathText(Child(dir, "work"))
  }

  /** `preflight_overlay_layers`: None when both checks pass. */
  function Preflight(layers: string, stateDir: Option<string>, link: Links): Option<Error> {
    if |Entries(layers)| > MAX_LAYERS then Some(StateError)
    else if stateDir.Some? && |MountOptions(ShortForm(layers, link).1, stateDir.value)| >= PAGE_LIMIT - MARGIN then Some(StateError)
    else None
  }

  lemma ProductStep(count: int, n: int)
    ensures count * n == (count - 1) * n + n
  {
  }

  lemma JoinGrows(parts: seq<string>)
    requires parts != []
    ensures |Join(parts, ':')| == if |parts| == 1 then |parts[0]| else |parts[0]| + 1 + |Join(parts[1..], ':')|
  {
  }

  lemma {:induction false} JoinedLength(parts: seq<string>, n: nat)
    requires forall p | p in parts :: |p| == n
    ensures |Join(parts, ':')| == if parts == [] then 0 else |parts| * (n + 1) - 1
  {
    if parts == [] {
    } else {
      JoinGrows(parts);
      hide Join;
      assert parts[0] in parts && forall p | p in parts[1..] :: p in parts;
      JoinedLength(parts[1..], n);
      ProductStep(|parts|, n + 1);
    }
  }

  /** A state directory as the options spell it: canonical, and not the root. */
  predicate StateDirText(s: string) {
    PathText(ParsePath(s)) == s && ParsePath(s).parts != []
  }

  lemma ChildLength(s: string, name: string)
    requires StateDirText(s)
    ensures |PathText(Child(ParsePath(s), name))| == |s| + 1 + |name|
  {
    var p := ParsePath(s);
    JoinAppend(p.parts, '/', name);
    hide ParsePath, Join;
  }

  lemma OptionsLength(lower: string, stateDir: string)
    requires StateDirText(stateDir)
    ensures |MountOptions(lower, stateDir)| == |lower| + 2 * |stateDir| + 39
  {
    ChildLength(stateDir, "upper");
    ChildLength(stateDir, "work");
    hide ParsePath, PathText, StateDirText;
    assert |"lowerdir="| == 9 && |",upperdir="| == 10 && |",workdir="| == 9 && |"upper"| == 5 && |"work"| == 4;
  }

  /** Every layer has a link of the usual length. */
  predicate UsualLinks(entries: seq<string>, link: Links) {
    forall i | 0 <= i < |entries| :: |link(Parent(ParsePath(entries[i])))| == LINK_LENGTH
  }

  lemma ShortLength(entries: seq<string>, link: Links)
    requires entries != [] && UsualLinks(entries, link)
    ensures |Join(ShortParts(entries, link), ':')| == 29 * |entries| - 1
  {
    var parts := ShortParts(entries, link);
    hide ParsePath;
    forall p | p in parts ensures |p| == 28 {
      var i :| 0 <= i < |parts| && parts[i] == p;
      assert |link(Parent(ParsePath(entries[i])))| == LINK_LENGTH;
      assert |"l/"| == 2;
    }
    hide ShortPart;
    JoinedLength(parts, 28);
  }

  /** With the usual links, exactly which images and state directories are refused. */
  lemma RefusedExactly(layers: string, stateDir: string, link: Links)
    requires Uniform(Entries(layers)) && UsualLinks(Entries(layers), link) && StateDirText(stateDir)
    ensures var n := |Entries(layers)|;
            Preflight(layers, Some(stateDir), link).Some? <==> n > MAX_LAYERS || 29 * n + 38 + 2 * |stateDir| >= PAGE_LIMIT - MARGIN
  {
    assert Entries(layers) != [];
    hide Uniform, Entries, MountOptions, StateDirText, UsualLinks, ShortParts, RootText;
    ShortLength(Entries(layers), link);
    OptionsLength(ShortForm(layers, link).1, stateDir);
  }

  /** Up to 164 characters of state directory the byte check never fires for an image within the layer cap;
      at 165 the fullest image sets it off. */
  lemma ByteCheckBound(layers: string, stateDir: string, link: Links)
    requires Uniform(Entries(layers)) && UsualLinks(Entries(layers), link) && StateDirText(stateDir)
    ensures |Entries(layers)| <= MAX_LAYERS && |stateDir| <= 164 ==> Preflight(layers, Some(stateDir), link).None?
    ensures |Entries(layers)| == MAX_LAYERS && |stateDir| >= 165 ==> Preflight(layers, Some(stateDir), link).Some?
  {
    RefusedExactly(layers, stateDir, link);
    hide Preflight, Uniform, Entries, UsualLinks, StateDirText;
  }
}
