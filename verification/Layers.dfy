/** Flattening the layers of an image into one directory, as the Trivy and Grype adapters do
    it: entries are extracted in order and whiteouts are skipped.  The reference is the layer
    application of the OCI image specification (layer.md, "Applying Changesets" and
    "Whiteouts"), where whiteouts delete what lower layers put there. */
module Layers {
  import opened Prelude

  type Path = seq<string>

  datatype Node = Dir | File(bytes: seq<byte>)

  type Tree = map<Path, Node>

  /** A tar entry; the name is split at its slashes and not yet cleaned. */
  datatype Entry = DirEntry(name: Path) | FileEntry(name: Path, bytes: seq<byte>)

  type Layer = seq<Entry>

  const EMPTY: Tree := map[[] := Dir]

  // ----- Names -----

  /** Lexical cleaning from a starting directory; going up from the root stays there. */
  function Resolve(at: Path, name: Path): Path
    decreases name
  {
    if name == [] then at
    else if name[0] == "" || name[0] == "." then Resolve(at, name[1..])
    else if name[0] == ".." then Resolve(if at == [] then [] else at[..|at| - 1], name[1..])
    else Resolve(at + [name[0]], name[1..])
  }

  /** The name without its trailing slashes. */
  function Trimmed(name: Path): Path {
    if name != [] && name[|name| - 1] == "" then Trimmed(name[..|name| - 1]) else name
  }

  function Base(name: Path): string {
    var t := Trimmed(name);
    if t == [] then "." else t[|t| - 1]
  }

  function Parent(name: Path): Path {
    var t := Trimmed(name);
    if t == [] then [] else t[..|t| - 1]
  }

  predicate IsWhiteout(name: Path) {
    ".wh." <= Base(name)
  }

  /** The two adapters: Trivy cleans the name against the root and caps the size of a file;
      Grype resolves the name from its work directory and refuses one that leaves it. */
  datatype Adapter = Trivy | Grype(workDir: Path)

  const MAX_FILE_BYTES := 209_715_200

  function Target(adapter: Adapter, name: Path): Option<Path> {
    match adapter
    case Trivy => Some(Resolve([], name))
    case Grype(workDir) =>
      var full := Resolve(workDir, name);
      if workDir <= full then Some(full[|workDir|..]) else None
  }

  function Capped(adapter: Adapter, bytes: seq<byte>): seq<byte> {
    if adapter.Trivy? && |bytes| > MAX_FILE_BYTES then bytes[..MAX_FILE_BYTES] else bytes
  }

  // ----- Extraction -----

  ghost function Prefixes(p: Path): set<Path> {
    set k | 0 <= k <= |p| :: p[..k]
  }

  /** A directory and all its parents. */
  ghost function Dirs(p: Path): Tree {
    map q | q in Prefixes(p) :: Dir
  }

  /** Create a directory and its parents; a file in the way is an error. */
  ghost function MkdirAll(fs: Tree, p: Path): Option<Tree> {
    if exists q :: q in Prefixes(p) && q in fs && fs[q].File? then None
    else Some(fs + Dirs(p))
  }

  ghost function WriteFile(fs: Tree, p: Path, bytes: seq<byte>): Option<Tree> {
    if p == [] then None
    else
      var made := MkdirAll(fs, p[..|p| - 1]);
      if made.None? || (p in fs && fs[p].Dir?) then None else Some(made.value[p := File(bytes)])
  }

  ghost function ExtractEntry(adapter: Adapter, fs: Tree, e: Entry): Option<Tree> {
    if IsWhiteout(e.name) then Some(fs)
    else
      var target := Target(adapter, e.name);
      if target.None? then None
      else match e
        case DirEntry(_) => MkdirAll(fs, target.value)
        case FileEntry(_, bytes) => WriteFile(fs, target.value, Capped(adapter, bytes))
  }

  ghost function ExtractLayer(adapter: Adapter, fs: Tree, layer: Layer): Option<Tree> {
    if layer == [] then Some(fs)
    else
      var done := ExtractLayer(adapter, fs, layer[..|layer| - 1]);
      if done.None? then None else ExtractEntry(adapter, done.value, layer[|layer| - 1])
  }

  ghost function Flatten(adapter: Adapter, layers: seq<Layer>): Option<Tree> {
    if layers == [] then Some(EMPTY)
    else
      var below := Flatten(adapter, layers[..|layers| - 1]);
      if below.None? then None else ExtractLayer(adapter, below.value, layers[|layers| - 1])
  }

  /** The work directory of one scan, written in place as the layers are read. */
  class Rootfs {
    var nodes: Tree

    constructor ()
      ensures nodes == EMPTY
    {
      nodes := EMPTY;
    }

    method Mkdir(p: Path) returns (ok: bool)
      modifies this
      ensures ok <==> MkdirAll(old(nodes), p).Some?
      ensures ok ==> nodes == MkdirAll(old(nodes), p).value
    {
      for k := 0 to |p| + 1
        invariant forall j :: 0 <= j < k ==> p[..j] in nodes && nodes[p[..j]] == Dir
        invariant forall j :: 0 <= j < k && p[..j] in old(nodes) ==> old(nodes)[p[..j]] == Dir
        invariant forall q :: q in nodes <==> q in old(nodes) || exists j :: 0 <= j < k && q == p[..j]
        invariant forall q :: q in old(nodes) ==> nodes[q] == old(nodes)[q]
      {
        if p[..k] in nodes && nodes[p[..k]].File? {
          assert p[..k] in Prefixes(p);
          return false;
        }
        nodes := nodes[p[..k] := Dir];
      }
      assert nodes == old(nodes) + Dirs(p);
      return true;
    }

    method Write(p: Path, bytes: seq<byte>) returns (ok: bool)
      modifies this
      ensures ok <==> WriteFile(old(nodes), p, bytes).Some?
      ensures ok ==> nodes == WriteFile(old(nodes), p, bytes).value
    {
      if p == [] {
        return false;
      }
      ok := Mkdir(p[..|p| - 1]);
      if !ok {
        return;
      }
      assert p !in Prefixes(p[..|p| - 1]);
      if p in nodes && nodes[p].Dir? {
        return false;
      }
      nodes := nodes[p := File(bytes)];
    }

    method Extract(adapter: Adapter, e: Entry) returns (ok: bool)
      modifies this
      ensures ok <==> ExtractEntry(adapter, old(nodes), e).Some?
      ensures ok ==> nodes == ExtractEntry(adapter, old(nodes), e).value
    {
      if IsWhiteout(e.name) {
        return true;
      }
      var target := Target(adapter, e.name);
      if target.None? {
        return false;
      }
      match e {
        case DirEntry(_) => ok := Mkdir(target.value);
        case FileEntry(_, bytes) => ok := Write(target.value, Capped(adapter, bytes));
      }
    }

    /** Extract one layer, entry by entry, stopping at the first error. */
    method Untar(adapter: Adapter, layer: Layer) returns (ok: bool)
      modifies this
      ensures ok <==> ExtractLayer(adapter, old(nodes), layer).Some?
      ensures ok ==> nodes == ExtractLayer(adapter, old(nodes), layer).value
    {
      for i := 0 to |layer|
        invariant ExtractLayer(adapter, old(nodes), layer[..i]) == Some(nodes)
      {
        assert layer[..i + 1][..i] == layer[..i];
        ok := Extract(adapter, layer[i]);
        if !ok {
          StopsAt(adapter, old(nodes), layer, i);
          return;
        }
      }
      assert layer[..|layer|] == layer;
      return true;
    }

    /** Apply the layers in manifest order, stopping at the first one that fails. */
    method ApplyLayers(adapter: Adapter, layers: seq<Layer>) returns (ok: bool)
      requires nodes == EMPTY
      modifies this
      ensures ok <==> Flatten(adapter, layers).Some?
      ensures ok ==> nodes == Flatten(adapter, layers).value
    {
      for i := 0 to |layers|
        invariant Flatten(adapter, layers[..i]) == Some(nodes)
      {
        assert layers[..i + 1][..i] == layers[..i];
        ok := Untar(adapter, layers[i]);
        if !ok {
          FlattenStopsAt(adapter, layers, i);
          return;
        }
      }
      assert layers[..|layers|] == layers;
      return true;
    }
  }

  /** Once a layer fails the scan fails. */
  lemma {:induction false} FlattenStopsAt(adapter: Adapter, layers: seq<Layer>, i: nat)
    requires i < |layers| && Flatten(adapter, layers[..i + 1]).None?
    ensures Flatten(adapter, layers).None?
    decreases |layers|
  {
    if i + 1 == |layers| {
      assert layers[..i + 1] == layers;
    } else {
      var front := layers[..|layers| - 1];
      assert front[..i + 1] == layers[..i + 1];
      FlattenStopsAt(adapter, front, i);
    }
  }

  /** Once an entry fails the layer fails. */
  lemma {:induction false} StopsAt(adapter: Adapter, fs: Tree, layer: Layer, i: nat)
    requires i < |layer| && ExtractLayer(adapter, fs, layer[..i + 1]).None?
    ensures ExtractLayer(adapter, fs, layer).None?
    decreases |layer|
  {
    if i + 1 == |layer| {
      assert layer[..i + 1] == layer;
    } else {
      var front := layer[..|layer| - 1];
      assert front[..i + 1] == layer[..i + 1];
      StopsAt(adapter, fs, front, i);
    }
  }

  // ----- The reference -----

  /** The whiteouts of a layer hide this path of the layers below: an explicit whiteout hides
      its sibling and everything in it, an opaque one everything in its directory. */
  predicate Hidden(layer: Layer, p: Path) {
    exists e :: e in layer && IsWhiteout(e.name) && Hides(e.name, p)
  }

  predicate Hides(name: Path, p: Path)
    requires IsWhiteout(name)
  {
    var dir := Resolve([], Parent(name));
    if Base(name) == ".wh..wh..opq" then dir < p
    else dir + [Base(name)[4..]] <= p
  }

  ghost function RemoveHidden(fs: Tree, layer: Layer): Tree {
    map p | p in fs && !Hidden(layer, p) :: fs[p]
  }

  /** Apply one entry: a directory over a directory keeps it, anything else replaces what is
      at the path. */
  ghost function ApplyEntry(fs: Tree, e: Entry): Tree {
    var p := Resolve([], e.name);
    if IsWhiteout(e.name) then fs
    else match e
      case DirEntry(_) => fs + Dirs(p)
      case FileEntry(_, bytes) =>
        var cleared := map q | q in fs && !(p <= q) :: fs[q];
        if p == [] then fs else (cleared + Dirs(p[..|p| - 1]))[p := File(bytes)]
  }

  ghost function ApplyEntries(fs: Tree, layer: Layer): Tree {
    if layer == [] then fs else ApplyEntry(ApplyEntries(fs, layer[..|layer| - 1]), layer[|layer| - 1])
  }

  /** Whiteouts apply to the layers below, never to entries of their own layer. */
  ghost function ApplyLayer(fs: Tree, layer: Layer): Tree {
    ApplyEntries(RemoveHidden(fs, layer), layer)
  }

  ghost function Image(layers: seq<Layer>): Tree {
    if layers == [] then EMPTY else ApplyLayer(Image(layers[..|layers| - 1]), layers[|layers| - 1])
  }

  // ----- The simulation -----

  /** Everything in the real tree is in the flattened one, files up to the adapter's cap. */
  ghost predicate Covers(adapter: Adapter, image: Tree, flat: Tree) {
    forall p :: p in image ==> p in flat && flat[p] == CappedNode(adapter, image[p])
  }

  function CappedNode(adapter: Adapter, n: Node): Node {
    match n
    case Dir => Dir
    case File(bytes) => File(Capped(adapter, bytes))
  }

  /** The adapter skips the entry, refuses it, or puts it where the reference does. */
  predicate Located(adapter: Adapter, e: Entry) {
    IsWhiteout(e.name) || Target(adapter, e.name) in {None, Some(Resolve([], e.name))}
  }

  lemma EntryKeepsCover(adapter: Adapter, image: Tree, flat: Tree, e: Entry)
    requires Covers(adapter, image, flat) && Located(adapter, e) && ExtractEntry(adapter, flat, e).Some?
    ensures Covers(adapter, ApplyEntry(image, e), ExtractEntry(adapter, flat, e).value)
  {
  }

  lemma {:induction false} EntriesKeepCover(adapter: Adapter, image: Tree, flat: Tree, layer: Layer)
    requires Covers(adapter, image, flat) && ExtractLayer(adapter, flat, layer).Some?
    requires forall e :: e in layer ==> Located(adapter, e)
    ensures Covers(adapter, ApplyEntries(image, layer), ExtractLayer(adapter, flat, layer).value)
  {
    if layer != [] {
      var front := layer[..|layer| - 1];
      EntriesKeepCover(adapter, image, flat, front);
      EntryKeepsCover(adapter, ApplyEntries(image, front), ExtractLayer(adapter, flat, front).value, layer[|layer| - 1]);
    }
  }

  /** Flattening never under-reports: if it succeeds, every file of the real image is in the
      flattened tree at the same path, with the same bytes up to the adapter's cap. */
  lemma {:induction false} FlattenCoversImage(adapter: Adapter, layers: seq<Layer>)
    requires Flatten(adapter, layers).Some?
    requires forall i, e :: 0 <= i < |layers| && e in layers[i] ==> Located(adapter, e)
    ensures Covers(adapter, Image(layers), Flatten(adapter, layers).value)
  {
    if layers != [] {
      var below, top := layers[..|layers| - 1], layers[|layers| - 1];
      assert forall i :: 0 <= i < |below| ==> below[i] == layers[i];
      FlattenCoversImage(adapter, below);
      EntriesKeepCover(adapter, RemoveHidden(Image(below), top), Flatten(adapter, below).value, top);
    }
  }

  /** A file of the image keeps all its bytes exactly when the adapter's cap admits them. */
  lemma BytesExactWithinCap(adapter: Adapter, layers: seq<Layer>, p: Path)
    requires Flatten(adapter, layers).Some?
    requires forall i, e :: 0 <= i < |layers| && e in layers[i] ==> Located(adapter, e)
    requires p in Image(layers) && Image(layers)[p].File?
    ensures p in Flatten(adapter, layers).value
    ensures Flatten(adapter, layers).value[p] == Image(layers)[p] <==>
            adapter.Grype? || |Image(layers)[p].bytes| <= 209_715_200
  {
    FlattenCoversImage(adapter, layers);
  }

  // ----- Without whiteouts nothing is over-reported -----

  /** A tree: the root is there, and whatever has something below it is a directory. */
  ghost predicate IsTree(fs: Tree) {
    && [] in fs
    && (forall p, q :: p in fs && q < p ==> q in fs && fs[q] == Dir)
  }

  ghost predicate SamePaths(image: Tree, flat: Tree) {
    image.Keys == flat.Keys
  }

  lemma PrefixesOf(p: Path, q: Path)
    ensures q in Prefixes(p) <==> q <= p
  {
    if q <= p {
      assert p[..|q|] == q;
    }
  }

  lemma MkdirAllKeepsTree(fs: Tree, p: Path)
    requires IsTree(fs) && MkdirAll(fs, p).Some?
    ensures IsTree(MkdirAll(fs, p).value)
  {
    var fs' := MkdirAll(fs, p).value;
    forall a, b | a in fs' && b < a
      ensures b in fs' && fs'[b] == Dir
    {
      PrefixesOf(p, a);
      PrefixesOf(p, b);
    }
  }

  lemma WriteFileKeepsTree(fs: Tree, p: Path, bytes: seq<byte>)
    requires IsTree(fs) && WriteFile(fs, p, bytes).Some?
    ensures IsTree(WriteFile(fs, p, bytes).value)
  {
    var dir := p[..|p| - 1];
    MkdirAllKeepsTree(fs, dir);
    var made, fs' := MkdirAll(fs, dir).value, WriteFile(fs, p, bytes).value;
    assert fs' == made[p := File(bytes)];
    forall a, b | a in fs' && b < a
      ensures b in fs' && fs'[b] == Dir
    {
      if a == p {
        assert b <= dir;
        PrefixesOf(dir, b);
        assert b in made && made[b] == Dir;
      } else {
        assert a in made && made[b] == Dir;
      }
    }
  }

  /** Without whiteouts an entry that extracts adds the same paths on both sides. */
  lemma EntryKeepsSamePaths(adapter: Adapter, image: Tree, flat: Tree, e: Entry)
    requires Covers(adapter, image, flat) && SamePaths(image, flat) && IsTree(flat)
    requires !IsWhiteout(e.name) && Located(adapter, e) && ExtractEntry(adapter, flat, e).Some?
    ensures SamePaths(ApplyEntry(image, e), ExtractEntry(adapter, flat, e).value)
    ensures IsTree(ExtractEntry(adapter, flat, e).value)
  {
    var p := Resolve([], e.name);
    match e
    case DirEntry(_) =>
      MkdirAllKeepsTree(flat, p);
    case FileEntry(_, bytes) =>
      WriteFileKeepsTree(flat, p, Capped(adapter, bytes));
      NothingBelowFile(flat, p);
  }

  lemma NothingBelowFile(fs: Tree, p: Path)
    requires IsTree(fs) && (p !in fs || fs[p].File?)
    ensures forall q :: q in fs && p <= q ==> q == p
  {
  }

  lemma {:induction false} EntriesKeepSamePaths(adapter: Adapter, image: Tree, flat: Tree, layer: Layer)
    requires Covers(adapter, image, flat) && SamePaths(image, flat) && IsTree(flat)
    requires ExtractLayer(adapter, flat, layer).Some?
    requires forall e :: e in layer ==> Located(adapter, e) && !IsWhiteout(e.name)
    ensures SamePaths(ApplyEntries(image, layer), ExtractLayer(adapter, flat, layer).value)
    ensures IsTree(ExtractLayer(adapter, flat, layer).value)
  {
    if layer != [] {
      var front := layer[..|layer| - 1];
      EntriesKeepSamePaths(adapter, image, flat, front);
      EntriesKeepCover(adapter, image, flat, front);
      EntryKeepsSamePaths(adapter, ApplyEntries(image, front), ExtractLayer(adapter, flat, front).value, layer[|layer| - 1]);
    }
  }

  lemma NothingHidden(fs: Tree, layer: Layer)
    requires forall e :: e in layer ==> !IsWhiteout(e.name)
    ensures RemoveHidden(fs, layer) == fs
  {
    assert forall p :: p in fs ==> !Hidden(layer, p);
  }

  /** The flattened tree covers the image, has the same paths and is a tree. */
  ghost predicate Exact(adapter: Adapter, image: Tree, flat: Tree) {
    Covers(adapter, image, flat) && SamePaths(image, flat) && IsTree(flat)
  }

  ghost predicate Ordinary(adapter: Adapter, layer: Layer) {
    forall e :: e in layer ==> Located(adapter, e) && !IsWhiteout(e.name)
  }

  lemma LayerKeepsExact(adapter: Adapter, image: Tree, flat: Tree, layer: Layer)
    requires Exact(adapter, image, flat) && Ordinary(adapter, layer) && ExtractLayer(adapter, flat, layer).Some?
    ensures Exact(adapter, ApplyLayer(image, layer), ExtractLayer(adapter, flat, layer).value)
  {
    NothingHidden(image, layer);
    EntriesKeepSamePaths(adapter, image, flat, layer);
    EntriesKeepCover(adapter, image, flat, layer);
  }

  lemma EmptyIsExact(adapter: Adapter)
    ensures Exact(adapter, EMPTY, EMPTY)
  {
  }

  lemma {:induction false} FlattenIsExact(adapter: Adapter, layers: seq<Layer>)
    requires Flatten(adapter, layers).Some?
    requires forall i :: 0 <= i < |layers| ==> Ordinary(adapter, layers[i])
    ensures Exact(adapter, Image(layers), Flatten(adapter, layers).value)
  {
    if layers == [] {
      EmptyIsExact(adapter);
    } else {
      var below, top := layers[..|layers| - 1], layers[|layers| - 1];
      FlattenIsExact(adapter, below);
      LayerKeepsExact(adapter, Image(below), Flatten(adapter, below).value, top);
    }
  }

  /** Skipped whiteouts are the only source of over-reporting: where there are none, the
      flattened tree has exactly the paths of the image. */
  lemma ExactWithoutWhiteouts(adapter: Adapter, layers: seq<Layer>)
    requires Flatten(adapter, layers).Some?
    requires forall i, e :: 0 <= i < |layers| && e in layers[i] ==> Located(adapter, e) && !IsWhiteout(e.name)
    ensures SamePaths(Image(layers), Flatten(adapter, layers).value)
    ensures IsTree(Flatten(adapter, layers).value)
  {
    FlattenIsExact(adapter, layers);
  }

  // ----- Where Grype puts an entry -----

  /** The name goes above the directory it starts from, at some point. */
  predicate Climbs(depth: nat, name: Path)
    decreases name
  {
    if name == [] then false
    else if name[0] == "" || name[0] == "." then Climbs(depth, name[1..])
    else if name[0] == ".." then depth == 0 || Climbs(depth - 1, name[1..])
    else Climbs(depth + 1, name[1..])
  }

  lemma {:induction false} ResolveBelow(dir: Path, at: Path, name: Path)
    requires !Climbs(|at|, name)
    ensures Resolve(dir + at, name) == dir + Resolve(at, name)
    decreases name
  {
    if name != [] {
      if name[0] == "" || name[0] == "." {
        ResolveBelow(dir, at, name[1..]);
      } else if name[0] == ".." {
        assert (dir + at)[..|dir + at| - 1] == dir + at[..|at| - 1];
        ResolveBelow(dir, at[..|at| - 1], name[1..]);
      } else {
        assert dir + at + [name[0]] == dir + (at + [name[0]]);
        ResolveBelow(dir, at + [name[0]], name[1..]);
      }
    }
  }

  lemma {:induction false} ResolveAtMost(dir: Path, at: Path, name: Path)
    ensures |Resolve(dir + at, name)| <= |dir| + |Resolve(at, name)|
    decreases name
  {
    if name != [] {
      if name[0] == "" || name[0] == "." {
        ResolveAtMost(dir, at, name[1..]);
      } else if name[0] == ".." {
        if at == [] {
          assert dir + at == dir;
          var up := if dir == [] then [] else dir[..|dir| - 1];
          assert up + [] == up;
          ResolveAtMost(up, [], name[1..]);
        } else {
          assert (dir + at)[..|dir + at| - 1] == dir + at[..|at| - 1];
          ResolveAtMost(dir, at[..|at| - 1], name[1..]);
        }
      } else {
        assert dir + at + [name[0]] == dir + (at + [name[0]]);
        ResolveAtMost(dir, at + [name[0]], name[1..]);
      }
    }
  }

  /** A name that climbs eats into the directory it is resolved from. */
  lemma {:induction false} ClimbingEats(dir: Path, at: Path, name: Path)
    requires Climbs(|at|, name) && dir != []
    ensures |Resolve(dir + at, name)| < |dir| + |Resolve(at, name)|
    decreases name
  {
    if name[0] == "" || name[0] == "." {
      ClimbingEats(dir, at, name[1..]);
    } else if name[0] == ".." {
      if at == [] {
        assert dir + at == dir;
        var up := dir[..|dir| - 1];
        assert up + [] == up;
        ResolveAtMost(up, [], name[1..]);
      } else {
        assert (dir + at)[..|dir + at| - 1] == dir + at[..|at| - 1];
        ClimbingEats(dir, at[..|at| - 1], name[1..]);
      }
    } else {
      assert dir + at + [name[0]] == dir + (at + [name[0]]);
      ClimbingEats(dir, at + [name[0]], name[1..]);
    }
  }

  /** From a given work directory, Grype puts an entry where the image has it exactly when the
      name never climbs above its start; one that climbs and is not refused lands nearer to
      the root. */
  lemma GrypeAgreesExactlyWhenNotClimbing(workDir: Path, name: Path)
    requires workDir != []
    ensures Target(Grype(workDir), name) == Some(Resolve([], name)) <==> !Climbs(0, name)
    ensures Climbs(0, name) && Target(Grype(workDir), name).Some? ==>
              |Target(Grype(workDir), name).value| < |Resolve([], name)|
  {
    assert workDir + [] == workDir;
    if Climbs(0, name) {
      ClimbingEats(workDir, [], name);
    } else {
      ResolveBelow(workDir, [], name);
    }
  }

  /** Trivy: no condition on the entries. */
  lemma TrivyCoversImage(layers: seq<Layer>)
    requires Flatten(Trivy, layers).Some?
    ensures Covers(Trivy, Image(layers), Flatten(Trivy, layers).value)
  {
    FlattenCoversImage(Trivy, layers);
  }

  /** A name that goes up once from the work directory and down again is accepted exactly when
      it comes back into it. */
  lemma GrypeAcceptsExactlyWhatComesBack(dir: Path, last: string, first: string, rest: Path)
    requires Plain([first] + rest)
    ensures Target(Grype(dir + [last]), [".."] + ([first] + rest)) == if first == last then Some(rest) else None
  {
    var workDir, down := dir + [last], [first] + rest;
    var name := [".."] + down;
    assert name[1..] == down && workDir[..|workDir| - 1] == dir;
    ResolvePlain(dir, down);
    var full := dir + down;
    assert Resolve(workDir, name) == full;
    assert full == dir + [first] + rest;
    assert full[|dir|] == first && workDir[|dir|] == last;
    if first == last {
      assert full[|workDir|..] == rest;
    }
  }

  /** Grype: every file of the image with the same bytes, whatever the work directory, when no
      name that is extracted climbs above its start. */
  lemma GrypeCoversImage(workDir: Path, layers: seq<Layer>)
    requires Flatten(Grype(workDir), layers).Some?
    requires forall i, e :: 0 <= i < |layers| && e in layers[i] ==> IsWhiteout(e.name) || !Climbs(0, e.name)
    ensures Covers(Grype(workDir), Image(layers), Flatten(Grype(workDir), layers).value)
    ensures forall p :: p in Image(layers) ==> p in Flatten(Grype(workDir), layers).value
                                               && Flatten(Grype(workDir), layers).value[p] == Image(layers)[p]
  {
    forall i, e | 0 <= i < |layers| && e in layers[i]
      ensures Located(Grype(workDir), e)
    {
      if workDir != [] {
        GrypeAgreesExactlyWhenNotClimbing(workDir, e.name);
      }
    }
    FlattenCoversImage(Grype(workDir), layers);
  }

  /** A one-entry image is covered exactly when its name does not climb. */
  lemma GrypeCoversEntryExactlyWhenNotClimbing(workDir: Path, e: Entry)
    requires workDir != [] && !IsWhiteout(e.name) && Flatten(Grype(workDir), [[e]]).Some?
    ensures Covers(Grype(workDir), Image([[e]]), Flatten(Grype(workDir), [[e]]).value) <==> !Climbs(0, e.name)
  {
    var adapter := Grype(workDir);
    OneEntry(adapter, e);
    GrypeAgreesExactlyWhenNotClimbing(workDir, e.name);
    if Climbs(0, e.name) {
      var p, target := Resolve([], e.name), Target(adapter, e.name).value;
      InFlatOfOne(adapter, e, target, p);
      PrefixesOf(p, p);
      assert p in Image([[e]]);
    } else {
      assert forall i, x :: 0 <= i < |[[e]]| && x in [[e]][i] ==> x == e;
      GrypeCoversImage(workDir, [[e]]);
    }
  }

  lemma OneEntry(adapter: Adapter, e: Entry)
    ensures Flatten(adapter, [[e]]) == ExtractEntry(adapter, EMPTY, e)
    ensures !IsWhiteout(e.name) ==> Image([[e]]) == ApplyEntry(EMPTY, e)
  {
    assert [[e]][..0] == [] && [e][..0] == [];
    assert Flatten(adapter, []) == Some(EMPTY) && ExtractLayer(adapter, EMPTY, []) == Some(EMPTY);
    assert ExtractLayer(adapter, EMPTY, [e]) == ExtractEntry(adapter, EMPTY, e);
    if !IsWhiteout(e.name) {
      assert RemoveHidden(EMPTY, [e]) == EMPTY;
      assert ApplyEntries(EMPTY, []) == EMPTY;
    }
  }

  /** Extracting one entry creates nothing longer than its target. */
  lemma InFlatOfOne(adapter: Adapter, e: Entry, target: Path, p: Path)
    requires !IsWhiteout(e.name) && Target(adapter, e.name) == Some(target) && |target| < |p|
    requires ExtractEntry(adapter, EMPTY, e).Some?
    ensures p !in ExtractEntry(adapter, EMPTY, e).value
  {
    PrefixesOf(target, p);
    if target != [] {
      PrefixesOf(target[..|target| - 1], p);
    }
  }

  ghost predicate UsesOnly(layers: seq<Layer>, names: set<Path>) {
    forall i, e :: 0 <= i < |layers| && e in layers[i] ==> e.name in names
  }

  /** Whatever is built from these names and flattens is covered. */
  ghost predicate AlwaysCovers(workDir: Path, names: set<Path>) {
    forall layers :: UsesOnly(layers, names) && Flatten(Grype(workDir), layers).Some? ==>
      Covers(Grype(workDir), Image(layers), Flatten(Grype(workDir), layers).value)
  }

  /** Grype over-approximates every image over a set of names exactly when each name is a
      whiteout, is refused, or never climbs above its start. */
  lemma GrypeAlwaysCoversExactly(workDir: Path, names: set<Path>)
    requires workDir != []
    ensures AlwaysCovers(workDir, names) <==>
            forall name :: name in names ==>
              IsWhiteout(name) || Target(Grype(workDir), name).None? || !Climbs(0, name)
  {
    var adapter := Grype(workDir);
    if forall name :: name in names ==> IsWhiteout(name) || Target(adapter, name).None? || !Climbs(0, name) {
      forall layers | UsesOnly(layers, names) && Flatten(adapter, layers).Some?
        ensures Covers(adapter, Image(layers), Flatten(adapter, layers).value)
      {
        forall i, e | 0 <= i < |layers| && e in layers[i]
          ensures Located(adapter, e)
        {
          GrypeAgreesExactlyWhenNotClimbing(workDir, e.name);
        }
        FlattenCoversImage(adapter, layers);
      }
    }
    forall name | AlwaysCovers(workDir, names) && name in names && !IsWhiteout(name) && Target(adapter, name).Some?
      ensures !Climbs(0, name)
    {
      var e := DirEntry(name);
      NoFilesInTheWay(Target(adapter, name).value);
      OneEntry(adapter, e);
      assert UsesOnly([[e]], names);
      GrypeCoversEntryExactlyWhenNotClimbing(workDir, e);
    }
  }

  lemma NoFilesInTheWay(p: Path)
    ensures MkdirAll(EMPTY, p).Some?
  {
  }

  /** The guard of Grype lets a name out of the work directory and back in: the file is in the
      image and flattening succeeds, but the file is not where the image has it. */
  lemma ClimbingFileIsMisplaced()
    ensures var layers := [[FileEntry(["..", "w", "x"], [7])]];
            && Flatten(Grype(["w"]), layers).Some?
            && ["w", "x"] in Image(layers)
            && ["w", "x"] !in Flatten(Grype(["w"]), layers).value
            && ["x"] in Flatten(Grype(["w"]), layers).value
  {
    var e := FileEntry(["..", "w", "x"], [7]);
    ClimbingName();
    OneEntry(Grype(["w"]), e);
    assert ["x"][..0] == [];
    NoFilesInTheWay([]);
    InFlatOfOne(Grype(["w"]), e, ["x"], ["w", "x"]);
  }

  lemma ClimbingName()
    ensures var name := ["..", "w", "x"];
            && !IsWhiteout(name)
            && Resolve([], name) == ["w", "x"]
            && Target(Grype(["w"]), name) == Some(["x"])
  {
    var name := ["..", "w", "x"];
    assert Trimmed(name) == name && Base(name) == "x";
    assert |".wh."| > |"x"|;
    assert name[1..] == ["w", "x"] && name[1..][1..] == ["x"] && name[1..][1..][1..] == [];
    assert Resolve(["w", "x"], []) == ["w", "x"];
    assert Resolve(["w"], ["x"]) == Resolve(["w"] + ["x"], ["x"][1..]);
    assert Resolve([], ["w", "x"]) == Resolve([] + ["w"], ["x"]);
    assert ["w"][..0] == [];
    assert Resolve(["w"], name) == Resolve([], ["w", "x"]) == Resolve([], name);
    assert ["w", "x"][1..] == ["x"];
  }

  /** Over-reporting is real: a whiteout in a layer of its own removes what it hides from the
      image, and changes nothing in the flattened tree. */
  lemma DeletedFileStillReported(adapter: Adapter, layers: seq<Layer>, whiteout: Path, p: Path)
    requires IsWhiteout(whiteout) && Hides(whiteout, p)
    ensures var more := layers + [[DirEntry(whiteout)]];
            p !in Image(more) && Flatten(adapter, more) == Flatten(adapter, layers)
  {
    var top: Layer := [DirEntry(whiteout)];
    var more := layers + [top];
    assert more[..|more| - 1] == layers && more[|more| - 1] == top;
    assert top[..0] == [] && top[0] in top;
    assert Hidden(top, p);
    assert ApplyEntries(RemoveHidden(Image(layers), top), top[..0]) == RemoveHidden(Image(layers), top);
    assert Image(more) == RemoveHidden(Image(layers), top);
    if Flatten(adapter, layers).Some? {
      var flat := Flatten(adapter, layers).value;
      assert ExtractLayer(adapter, flat, top[..0]) == Some(flat);
      assert ExtractLayer(adapter, flat, top) == Some(flat);
    }
  }

  // ----- Names, entry by entry -----

  /** No component of the path is empty or made of one or two dots only. */
  predicate Plain(p: Path) {
    forall i :: 0 <= i < |p| ==> p[i] != "" && p[i] != "." && p[i] != ".."
  }

  /** The name with slashes after it. */
  function WithSlashes(name: Path, n: nat): Path {
    if n == 0 then name else WithSlashes(name, n - 1) + [""]
  }

  lemma {:induction false} ResolveConcat(at: Path, a: Path, b: Path)
    ensures Resolve(at, a + b) == Resolve(Resolve(at, a), b)
    decreases a
  {
    if a == [] {
      assert a + b == b;
    } else {
      var next := if a[0] == "" || a[0] == "." then at
                  else if a[0] == ".." then (if at == [] then [] else at[..|at| - 1])
                  else at + [a[0]];
      assert (a + b)[1..] == a[1..] + b && (a + b)[0] == a[0];
      ResolveConcat(next, a[1..], b);
    }
  }

  lemma {:induction false} ResolveSlashes(at: Path, name: Path, n: nat)
    ensures Resolve(at, WithSlashes(name, n)) == Resolve(at, name)
  {
    if n > 0 {
      ResolveSlashes(at, name, n - 1);
      ResolveConcat(at, WithSlashes(name, n - 1), [""]);
      assert [""][1..] == [];
    }
  }

  lemma {:induction false} ResolvePlain(at: Path, p: Path)
    requires Plain(p)
    ensures Resolve(at, p) == at + p
    decreases p
  {
    if p != [] {
      ResolvePlain(at + [p[0]], p[1..]);
      assert at + [p[0]] + p[1..] == at + p;
    }
  }

  lemma {:induction false} TrimmedSlashes(dir: Path, base: string, n: nat)
    requires base != ""
    ensures Trimmed(WithSlashes(dir + [base], n)) == dir + [base]
  {
    if n > 0 {
      TrimmedSlashes(dir, base, n - 1);
      var name := WithSlashes(dir + [base], n);
      assert name[..|name| - 1] == WithSlashes(dir + [base], n - 1);
    }
  }

  /** What an ordinary name comes to: both adapters and the image put it where it says. */
  lemma OrdinaryName(adapter: Adapter, dir: Path, base: string, slashes: nat)
    requires Plain(dir + [base])
    ensures var name := WithSlashes(dir + [base], slashes);
            && Base(name) == base && Parent(name) == dir
            && Resolve([], name) == dir + [base] && Target(adapter, name) == Some(dir + [base])
  {
    var p := dir + [base];
    assert p[|dir|] == base && p[..|dir|] == dir;
    TrimmedSlashes(dir, base, slashes);
    ResolveSlashes([], p, slashes);
    ResolvePlain([], p);
    assert [] + p == p;
    if adapter.Grype? {
      ResolveSlashes(adapter.workDir, p, slashes);
      ResolvePlain(adapter.workDir, p);
      assert (adapter.workDir + p)[|adapter.workDir|..] == p;
    }
  }

  /** An entry whose last component does not begin with ".wh." is extracted: it fails exactly
      when a file is in the way, or a directory where the file should be, and otherwise the
      file or directory is at its path, with its bytes (Trivy: the first 200 MiB of them), and
      so it is in the image. */
  lemma OrdinaryEntriesAreExtracted(adapter: Adapter, fs: Tree, image: Tree, dir: Path, base: string, slashes: nat, bytes: seq<byte>)
    requires Plain(dir + [base]) && !(".wh." <= base)
    ensures var p, e := dir + [base], FileEntry(WithSlashes(dir + [base], slashes), bytes);
            var r := ExtractEntry(adapter, fs, e);
            && (r.None? <==> (exists q :: q < p && q in fs && fs[q].File?) || (p in fs && fs[p].Dir?))
            && (r.Some? ==>
                  && p in r.value
                  && r.value[p] == File(if adapter.Trivy? && |bytes| > 209_715_200 then bytes[..209_715_200] else bytes))
            && p in ApplyEntry(image, e) && ApplyEntry(image, e)[p] == File(bytes)
    ensures var p, e := dir + [base], DirEntry(WithSlashes(dir + [base], slashes));
            var r := ExtractEntry(adapter, fs, e);
            && (r.None? <==> exists q :: q <= p && q in fs && fs[q].File?)
            && (r.Some? ==> p in r.value && r.value[p] == Dir)
            && p in ApplyEntry(image, e) && ApplyEntry(image, e)[p] == Dir
  {
    var p := dir + [base];
    OrdinaryName(adapter, dir, base, slashes);
    assert p[..|p| - 1] == dir;
    InTheWay(fs, p);
    InTheWay(fs, dir);
    forall q: Path | q in fs
      ensures q < p <==> q <= dir
    {
      assert q <= p && |q| < |p| ==> q == p[..|q|];
    }
    PrefixesOf(p, p);
  }

  lemma InTheWay(fs: Tree, p: Path)
    ensures MkdirAll(fs, p).None? <==> exists q :: q <= p && q in fs && fs[q].File?
  {
    if q :| q <= p && q in fs && fs[q].File? {
      PrefixesOf(p, q);
    }
    if q :| q in Prefixes(p) && q in fs && fs[q].File? {
      PrefixesOf(p, q);
    }
  }

  /** An entry whose last component begins with ".wh." is never extracted and never a file of
      the image. */
  lemma WhiteoutEntriesAreSkipped(adapter: Adapter, fs: Tree, image: Tree, dir: Path, base: string, slashes: nat, bytes: seq<byte>)
    requires ".wh." <= base
    ensures var name := WithSlashes(dir + [base], slashes);
            && ExtractEntry(adapter, fs, FileEntry(name, bytes)) == Some(fs) && ExtractEntry(adapter, fs, DirEntry(name)) == Some(fs)
            && ApplyEntry(image, FileEntry(name, bytes)) == image && ApplyEntry(image, DirEntry(name)) == image
  {
    TrimmedSlashes(dir, base, slashes);
    assert (dir + [base])[|dir|] == base;
  }

  lemma OneEntryApplied(fs: Tree, e: Entry)
    ensures ApplyEntries(fs, [e]) == ApplyEntry(fs, e)
  {
    assert [e][..0] == [];
    assert ApplyEntries(fs, []) == fs;
  }

  /** What a whiteout does to the image of the layers below it: ".wh." and a name take away
      that sibling with everything in it, ".wh..wh..opq" everything in its directory, and
      nothing else changes. */
  lemma WhiteoutRemovesExactly(image: Tree, dir: Path, hidden: string, slashes: nat, p: Path)
    requires Plain(dir)
    ensures var layer := [DirEntry(WithSlashes(dir + [".wh." + hidden], slashes))];
            var gone := if hidden == ".wh..opq" then dir < p else dir + [hidden] <= p;
            && (p in ApplyLayer(image, layer) <==> p in image && !gone)
            && (p in ApplyLayer(image, layer) ==> ApplyLayer(image, layer)[p] == image[p])
  {
    var base := ".wh." + hidden;
    var e := DirEntry(WithSlashes(dir + [base], slashes));
    var layer := [e];
    assert base[4..] == hidden;
    assert base == ".wh..wh..opq" <==> hidden == ".wh..opq";
    TrimmedSlashes(dir, base, slashes);
    assert (dir + [base])[|dir|] == base && (dir + [base])[..|dir|] == dir;
    ResolvePlain([], dir);
    assert [] + dir == dir;
    WhiteoutEntriesAreSkipped(Trivy, image, RemoveHidden(image, layer), dir, base, slashes, []);
    OneEntryApplied(RemoveHidden(image, layer), e);
    assert layer[0] == e;
    assert Hidden(layer, p) <==> Hides(e.name, p);
  }
}
