/** Method resolution of `loader.c`: finding a TypeDef by name, resolving
    a MemberRef to the MethodDef it names in a referenced assembly, and
    `mono_get_method` with its per-image cache. Images are values; the
    methods the loader allocates are numbered in allocation order. */
module Loader {
  import opened Bytes
  import Metadata

  /** A TypeDef row: its name, namespace and the 1-based MethodDef row of
      its first method. */
  datatype TypeDefRow = TypeDefRow(name: string, nspace: string, methodList: nat)

  /** A MethodDef row: where its body is, its name and its signature blob. */
  datatype MethodRow = MethodRow(rva: nat, name: string, sig: seq<Byte>)

  /** A MemberRef row: its MemberRefParent coded index, name and signature. */
  datatype MemberRefRow = MemberRefRow(parent: nat, name: string, sig: seq<Byte>)

  /** A TypeRef row: its ResolutionScope coded index, name and namespace. */
  datatype TypeRefRow = TypeRefRow(scope: nat, name: string, nspace: string)

  /** What the loader reads of an image: four tables, the images its
      AssemblyRef rows were loaded as (`image->references`, by position in
      the image list) and the RVAs `cli_rva_map` can map. */
  datatype Image = Image(typedefs: seq<TypeDefRow>, methods: seq<MethodRow>, memberrefs: seq<MemberRefRow>,
                         typerefs: seq<TypeRefRow>, references: seq<nat>, mapped: set<nat>)

  /** Every reference names a loaded image. */
  predicate ImagesValid(images: seq<Image>)
  {
    forall i, k :: 0 <= i < |images| && 0 <= k < |images[i].references| ==> images[i].references[k] < |images|
  }

  // Coded-index tags, as positions in the candidate lists of Partition II
  // section 24.2.6.
  const MEMBERREF_PARENT_TYPEREF := 1
  const MEMBERREF_PARENT_BITS := 3
  const RESOLUTION_SCOPE_ASSEMBLYREF := 2
  const RESOLUTION_SCOPE_BITS := 2

  const TOKEN_TYPE_METHOD_DEF := 0x0600_0000

  /** The tags agree with the coded-index layout of the metadata model. */
  lemma TagsAgree()
    ensures Metadata.Candidates(Metadata.MrpIdx)[MEMBERREF_PARENT_TYPEREF] == Metadata.TYPEREF
    ensures Metadata.Candidates(Metadata.RsIdx)[RESOLUTION_SCOPE_ASSEMBLYREF] == Metadata.ASSEMBLYREF
    ensures Metadata.TagBits(Metadata.MrpIdx) == MEMBERREF_PARENT_BITS
    ensures Metadata.TagBits(Metadata.RsIdx) == RESOLUTION_SCOPE_BITS
    ensures TOKEN_TYPE_METHOD_DEF / 0x100_0000 == Metadata.METHOD
  {
  }

  // ---------------------------------------------------------------------
  // typedef_from_name
  // ---------------------------------------------------------------------

  /** Row `i` (0-based) is the TypeDef `nspace.name`. */
  predicate TypeNamed(rows: seq<TypeDefRow>, i: nat, name: string, nspace: string)
    requires i < |rows|
  {
    rows[i].name == name && rows[i].nspace == nspace
  }

  /** `typedef_from_name`: the 1-based index of the first TypeDef row
      with the given name and namespace, with that row's method list. No
      such row is a fatal error. */
  function TypedefFromName(rows: seq<TypeDefRow>, name: string, nspace: string): (r: Result<(nat, nat)>)
    ensures r.Ok? <==> exists i :: 0 <= i < |rows| && TypeNamed(rows, i, name, nspace)
    ensures r.Ok? ==> 1 <= r.value.0 <= |rows| && TypeNamed(rows, r.value.0 - 1, name, nspace)
    ensures r.Ok? ==> r.value.1 == rows[r.value.0 - 1].methodList
    ensures r.Ok? ==> forall i :: 0 <= i < r.value.0 - 1 ==> !TypeNamed(rows, i, name, nspace)
    decreases |rows|
  {
    if |rows| == 0 then Err("not reached")
    else if TypeNamed(rows, 0, name, nspace) then Ok((1, rows[0].methodList))
    else
      assert forall i :: 1 <= i < |rows| ==> (TypeNamed(rows, i, name, nspace) <==> TypeNamed(rows[1..], i - 1, name, nspace));
      match TypedefFromName(rows[1..], name, nspace)
      case Err(e) => Err(e)
      case Ok((idx, mlist)) =>
        assert TypeNamed(rows, idx, name, nspace);
        Ok((idx + 1, mlist))
  }

  // ---------------------------------------------------------------------
  // Signature comparison
  // ---------------------------------------------------------------------

  /** `strncmp (a, b, n) == 0`: the first `n` bytes agree up to and
      including the first NUL; bytes after a NUL are not looked at. */
  predicate StrnEqual(a: seq<Byte>, b: seq<Byte>, n: nat)
    requires n <= |a| && n <= |b|
    decreases n
  {
    n == 0 || (a[0] == b[0] && (a[0] == 0 || StrnEqual(a[1..], b[1..], n - 1)))
  }

  /** Without NUL bytes, `strncmp` compares every byte. */
  lemma {:induction false} StrnEqualWithoutNul(a: seq<Byte>, b: seq<Byte>, n: nat)
    requires n <= |a| && n <= |b| && forall k :: 0 <= k < n ==> a[k] != 0
    ensures StrnEqual(a, b, n) <==> a[..n] == b[..n]
    decreases n
  {
    if n > 0 {
      StrnEqualWithoutNul(a[1..], b[1..], n - 1);
      assert a[..n] == [a[0]] + a[1..][..n - 1];
      assert b[..n] == [b[0]] + b[1..][..n - 1];
    }
  }

  /** Equal prefixes always compare equal under `strncmp`. */
  lemma {:induction false} StrnEqualReflexive(a: seq<Byte>, b: seq<Byte>, n: nat)
    requires n <= |a| && n <= |b| && a[..n] == b[..n]
    ensures StrnEqual(a, b, n)
    decreases n
  {
    if n > 0 {
      assert a[0] == a[..n][0] && b[0] == b[..n][0];
      assert a[1..][..n - 1] == a[..n][1..];
      assert b[1..][..n - 1] == b[..n][1..];
      StrnEqualReflexive(a[1..], b[1..], n - 1);
    }
  }

  /** The runtime's signature test: equal lengths and `strncmp` over the
      length. */
  predicate SigMatchAsWritten(sig: seq<Byte>, msig: seq<Byte>)
  {
    |sig| == |msig| && StrnEqual(sig, msig, |sig|)
  }

  /** The signature test meant: the blobs are byte for byte equal. */
  predicate SigMatch(sig: seq<Byte>, msig: seq<Byte>)
  {
    |sig| == |msig| && sig == msig
  }

  /** The test as written accepts every pair of equal blobs, and so is
      weaker than the one meant. */
  lemma SigMatchWeaker(sig: seq<Byte>, msig: seq<Byte>)
    ensures SigMatch(sig, msig) ==> SigMatchAsWritten(sig, msig)
  {
    if SigMatch(sig, msig) {
      StrnEqualReflexive(sig, msig, |sig|);
    }
  }

  /** Two static methods `void F(int32)` and `void F(float32)`: their
      signature blobs start with the calling convention byte 0, so
      `strncmp` stops at once and calls them equal. */
  lemma NulSignaturesConfused()
    ensures var intSig: seq<Byte> := [0x00, 0x01, 0x01, 0x08];
      var floatSig: seq<Byte> := [0x00, 0x01, 0x01, 0x0C];
      SigMatchAsWritten(intSig, floatSig) && !SigMatch(intSig, floatSig)
  {
    var intSig: seq<Byte> := [0x00, 0x01, 0x01, 0x08];
    var floatSig: seq<Byte> := [0x00, 0x01, 0x01, 0x0C];
    assert intSig[3] != floatSig[3];
  }

  // ---------------------------------------------------------------------
  // methoddef_from_memberref
  // ---------------------------------------------------------------------

  /** Method row `i` (0-based) has the name and signature looked for,
      under the given signature test. */
  predicate MethodMatches(rows: seq<MethodRow>, i: nat, name: string, sig: seq<Byte>, asWritten: bool)
    requires i < |rows|
  {
    rows[i].name == name && (if asWritten then SigMatchAsWritten(sig, rows[i].sig) else SigMatch(sig, rows[i].sig))
  }

  /** The method search loop: the first row from `from` (0-based) on that
      matches, as a 1-based index; none is a fatal error. */
  function Search(rows: seq<MethodRow>, from: nat, name: string, sig: seq<Byte>, asWritten: bool): (r: Result<nat>)
    ensures r.Ok? <==> exists i :: from <= i < |rows| && MethodMatches(rows, i, name, sig, asWritten)
    ensures r.Ok? ==> from < r.value <= |rows| && MethodMatches(rows, r.value - 1, name, sig, asWritten)
    ensures r.Ok? ==> forall i :: from <= i < r.value - 1 ==> !MethodMatches(rows, i, name, sig, asWritten)
    decreases |rows| - from
  {
    if from >= |rows| then Err("not reached")
    else if MethodMatches(rows, from, name, sig, asWritten) then Ok(from + 1)
    else Search(rows, from + 1, name, sig, asWritten)
  }

  /** The MemberRef's parent: a TypeRef whose scope is an AssemblyRef,
      giving the referenced image and the class's name and namespace.
      Any other parent or scope is a fatal error, and so, here, is a row
      index outside its table. */
  function ParentClass(images: seq<Image>, img: nat, index: nat): (r: Result<(nat, string, string, MemberRefRow)>)
    requires img < |images| && ImagesValid(images)
    requires 1 <= index <= |images[img].memberrefs|
    ensures r.Ok? ==> r.value.0 < |images| && r.value.3 == images[img].memberrefs[index - 1]
    ensures var image := images[img]; var mr := image.memberrefs[index - 1];
      r.Ok? <==> (mr.parent % 8 == MEMBERREF_PARENT_TYPEREF && 1 <= mr.parent / 8 <= |image.typerefs|
                  && image.typerefs[mr.parent / 8 - 1].scope % 4 == RESOLUTION_SCOPE_ASSEMBLYREF
                  && 1 <= image.typerefs[mr.parent / 8 - 1].scope / 4 <= |image.references|)
    ensures r.Ok? ==> var image := images[img]; var tr := image.typerefs[image.memberrefs[index - 1].parent / 8 - 1];
      r.value.0 == image.references[tr.scope / 4 - 1] && r.value.1 == tr.name && r.value.2 == tr.nspace
  {
    var image := images[img];
    var mr := image.memberrefs[index - 1];
    var nindex := mr.parent / 8;
    if mr.parent % 8 != MEMBERREF_PARENT_TYPEREF then Err("not reached")
    else if !(1 <= nindex <= |image.typerefs|) then Err("typeref row out of range")
    else
      var tr := image.typerefs[nindex - 1];
      var scopeindex := tr.scope / 4;
      if tr.scope % 4 != RESOLUTION_SCOPE_ASSEMBLYREF then Err("not reached")
      else if !(1 <= scopeindex <= |image.references|) then Err("assemblyref row out of range")
      else Ok((image.references[scopeindex - 1], tr.name, tr.nspace, mr))
  }

  /** `methoddef_from_memberref` as written: the method search starts at
      the class's MethodList value read as a 0-based row, so it begins
      one row past the class's first method, and signatures are compared
      with `strncmp`. */
  function MethodDefFromMemberRefAsWritten(images: seq<Image>, img: nat, index: nat): (r: Result<(nat, nat)>)
    requires img < |images| && ImagesValid(images)
    requires 1 <= index <= |images[img].memberrefs|
    ensures r.Ok? ==> ParentClass(images, img, index).Ok?
    ensures r.Ok? ==> var (target, name, nspace, mr) := ParentClass(images, img, index).value;
      var methods := images[target].methods;
      TypedefFromName(images[target].typedefs, name, nspace).Ok?
      && var mlist := TypedefFromName(images[target].typedefs, name, nspace).value.1;
         r.value.0 == target && mlist < r.value.1 <= |methods|
         && MethodMatches(methods, r.value.1 - 1, mr.name, mr.sig, true)
         && forall i :: mlist <= i < r.value.1 - 1 ==> !MethodMatches(methods, i, mr.name, mr.sig, true)
  {
    match ParentClass(images, img, index)
    case Err(e) => Err(e)
    case Ok((target, name, nspace, mr)) =>
      match TypedefFromName(images[target].typedefs, name, nspace)
      case Err(e) => Err(e)
      case Ok((_, mlist)) =>
        match Search(images[target].methods, mlist, mr.name, mr.sig, true)
        case Err(e) => Err(e)
        case Ok(row) => Ok((target, row))
  }

  /** Where the corrected method search runs: the referenced image, the
      0-based row of the class's first method and the MemberRef row, when
      the parent and its class resolve. */
  function SearchStart(images: seq<Image>, img: nat, index: nat): Option<(nat, nat, MemberRefRow)>
    requires img < |images| && ImagesValid(images)
    requires 1 <= index <= |images[img].memberrefs|
  {
    match ParentClass(images, img, index)
    case Err(_) => None
    case Ok((target, name, nspace, mr)) =>
      match TypedefFromName(images[target].typedefs, name, nspace)
      case Err(_) => None
      case Ok((_, mlist)) => Some((target, if mlist == 0 then 0 else mlist - 1, mr))
  }

  /** `methoddef_from_memberref` as meant: the search starts at the
      class's first method (MethodList is a 1-based row, Partition II
      section 22.37) and signatures are compared byte for byte. The
      result is the referenced image and the 1-based MethodDef row of the
      first method from there with the MemberRef's name and signature. */
  function MethodDefFromMemberRef(images: seq<Image>, img: nat, index: nat): (r: Result<(nat, nat)>)
    requires img < |images| && ImagesValid(images)
    requires 1 <= index <= |images[img].memberrefs|
    ensures r.Ok? ==> ParentClass(images, img, index).Ok? && r.value.0 == ParentClass(images, img, index).value.0
    ensures r.Ok? ==> var (target, name, nspace, mr) := ParentClass(images, img, index).value;
      var methods := images[target].methods;
      TypedefFromName(images[target].typedefs, name, nspace).Ok?
      && 1 <= r.value.1 <= |methods|
      && methods[r.value.1 - 1].name == mr.name && methods[r.value.1 - 1].sig == mr.sig
      && r.value.1 >= TypedefFromName(images[target].typedefs, name, nspace).value.1
    ensures r.Ok? <==> (SearchStart(images, img, index).Some?
      && var (target, from, mr) := SearchStart(images, img, index).value;
         exists i :: from <= i < |images[target].methods| && MethodMatches(images[target].methods, i, mr.name, mr.sig, false))
    ensures r.Ok? ==> var (target, from, mr) := SearchStart(images, img, index).value;
      r.value.0 == target && from < r.value.1
      && forall i :: from <= i < r.value.1 - 1 ==> !MethodMatches(images[target].methods, i, mr.name, mr.sig, false)
  {
    match ParentClass(images, img, index)
    case Err(e) => Err(e)
    case Ok((target, name, nspace, mr)) =>
      match TypedefFromName(images[target].typedefs, name, nspace)
      case Err(e) => Err(e)
      case Ok((_, mlist)) =>
        var from := if mlist == 0 then 0 else mlist - 1;
        match Search(images[target].methods, from, mr.name, mr.sig, false)
        case Err(e) => Err(e)
        case Ok(row) => Ok((target, row))
  }

  /** A class whose only method is the one referenced: the search as
      written starts past it and fails, the corrected one finds row 1. */
  lemma FirstMethodSkipped()
    ensures var sig: seq<Byte> := [0x20, 0x00, 0x01];
      var lib := Image([TypeDefRow("C", "N", 1)], [MethodRow(0x2050, "M", sig)], [], [], [], {0x2050});
      var app := Image([], [], [MemberRefRow(1 * 8 + MEMBERREF_PARENT_TYPEREF, "M", sig)],
                       [TypeRefRow(1 * 4 + RESOLUTION_SCOPE_ASSEMBLYREF, "C", "N")], [0], {});
      MethodDefFromMemberRefAsWritten([lib, app], 1, 1).Err?
      && MethodDefFromMemberRef([lib, app], 1, 1) == Ok((0, 1))
  {
    var sig: seq<Byte> := [0x20, 0x00, 0x01];
    var lib := Image([TypeDefRow("C", "N", 1)], [MethodRow(0x2050, "M", sig)], [], [], [], {0x2050});
    var app := Image([], [], [MemberRefRow(1 * 8 + MEMBERREF_PARENT_TYPEREF, "M", sig)],
                     [TypeRefRow(1 * 4 + RESOLUTION_SCOPE_ASSEMBLYREF, "C", "N")], [0], {});
    var images := [lib, app];
    assert ParentClass(images, 1, 1) == Ok((0, "C", "N", app.memberrefs[0]));
    assert TypedefFromName(lib.typedefs, "C", "N") == Ok((1, 1));
    assert MethodMatches(lib.methods, 0, "M", sig, false);
  }

  // ---------------------------------------------------------------------
  // mono_get_method
  // ---------------------------------------------------------------------

  /** A loaded method: its image and 1-based MethodDef row. */
  datatype Method = Method(image: nat, row: nat)

  /** The loader's state: every method allocated, numbered in order, and
      each image's `method_cache` from MethodDef token to method. */
  datatype State = State(methods: seq<Method>, cache: map<(nat, nat), nat>)

  /** Each cached method is the one the cache key names. */
  predicate StateValid(st: State)
  {
    forall k :: k in st.cache ==>
      (st.cache[k] < |st.methods| && st.methods[st.cache[k]] == Method(k.0, k.1 % 0x100_0000))
  }

  /** The MethodDef half of `mono_get_method`: a cached token gives the
      cached method; otherwise the row's body must map (a fatal error if
      not), and a new method is allocated and cached. */
  function GetMethodDef(images: seq<Image>, st: State, img: nat, token: nat): (r: Result<(State, nat)>)
    requires img < |images| && token / 0x100_0000 == Metadata.METHOD
    requires StateValid(st)
    ensures (img, token) in st.cache ==> r == Ok((st, st.cache[(img, token)]))
    ensures r.Ok? ==> StateValid(r.value.0) && r.value.1 < |r.value.0.methods|
    ensures r.Ok? ==> r.value.0.methods[r.value.1] == Method(img, token % 0x100_0000)
    ensures r.Ok? ==> (img, token) in r.value.0.cache && r.value.0.cache[(img, token)] == r.value.1
    ensures r.Ok? ==> st.methods <= r.value.0.methods
    ensures r.Ok? && (img, token) !in st.cache ==> r.value.1 == |st.methods| && |r.value.0.methods| == |st.methods| + 1
  {
    if (img, token) in st.cache then Ok((st, st.cache[(img, token)]))
    else
      var index := token % 0x100_0000;
      var rows := images[img].methods;
      if !(1 <= index <= |rows|) then Err("method row out of range")
      else if rows[index - 1].rva !in images[img].mapped then Err("assertion failed: loc")
      else
        var id := |st.methods|;
        var st' := State(st.methods + [Method(img, index)], st.cache[(img, token) := id]);
        Ok((st', id))
  }

  /** `mono_get_method`: a MethodDef token is looked up in the image's
      cache and loaded on a miss; a MemberRef token is resolved to a
      MethodDef in the referenced image and looked up there; any other
      table is a fatal error. */
  function GetMethod(images: seq<Image>, st: State, img: nat, token: nat): (r: Result<(State, nat)>)
    requires img < |images| && ImagesValid(images) && StateValid(st)
    ensures r.Ok? ==> StateValid(r.value.0) && st.methods <= r.value.0.methods
    ensures token / 0x100_0000 != Metadata.METHOD && token / 0x100_0000 != Metadata.MEMBERREF ==> r.Err?
    ensures token / 0x100_0000 == Metadata.METHOD ==> r == GetMethodDef(images, st, img, token)
  {
    var table := token / 0x100_0000;
    var index := token % 0x100_0000;
    if table == Metadata.METHOD then GetMethodDef(images, st, img, token)
    else if table != Metadata.MEMBERREF then Err("assertion failed: table == MEMBERREF")
    else if !(1 <= index <= |images[img].memberrefs|) then Err("memberref row out of range")
    else
      match MethodDefFromMemberRef(images, img, index)
      case Err(e) => Err(e)
      case Ok((target, row)) =>
        if row >= 0x100_0000 then Err("method row out of range")
        else GetMethodDef(images, st, target, TOKEN_TYPE_METHOD_DEF + row)
  }

  /** Asking again for a method already loaded gives the same method and
      changes nothing, for MethodDef and MemberRef tokens alike. */
  lemma GetMethodCached(images: seq<Image>, st: State, img: nat, token: nat)
    requires img < |images| && ImagesValid(images) && StateValid(st)
    requires GetMethod(images, st, img, token).Ok?
    ensures var (st1, m) := GetMethod(images, st, img, token).value;
      GetMethod(images, st1, img, token) == Ok((st1, m))
  {
    var (st1, m) := GetMethod(images, st, img, token).value;
    var table := token / 0x100_0000;
    if table == Metadata.MEMBERREF {
      var index := token % 0x100_0000;
      var (target, row) := MethodDefFromMemberRef(images, img, index).value;
      assert GetMethodDef(images, st, target, TOKEN_TYPE_METHOD_DEF + row) == Ok((st1, m));
      assert (target, TOKEN_TYPE_METHOD_DEF + row) in st1.cache;
    }
  }

  /** A MemberRef token loads the MethodDef it resolves to: the method is
      that row of the referenced image, the same one the MethodDef token
      would give. */
  lemma MemberRefRedirects(images: seq<Image>, st: State, img: nat, index: nat)
    requires img < |images| && ImagesValid(images) && StateValid(st)
    requires 1 <= index <= |images[img].memberrefs| && index < 0x100_0000
    requires GetMethod(images, st, img, 0x0A00_0000 + index).Ok?
    ensures MethodDefFromMemberRef(images, img, index).Ok?
    ensures var (target, row) := MethodDefFromMemberRef(images, img, index).value;
      var (st1, m) := GetMethod(images, st, img, 0x0A00_0000 + index).value;
      st1.methods[m] == Method(target, row)
      && GetMethod(images, st, img, 0x0A00_0000 + index) == GetMethod(images, st, target, TOKEN_TYPE_METHOD_DEF + row)
  {
    var token := 0x0A00_0000 + index;
    assert token / 0x100_0000 == Metadata.MEMBERREF;
    assert token % 0x100_0000 == index;
    var (target, row) := MethodDefFromMemberRef(images, img, index).value;
    assert (TOKEN_TYPE_METHOD_DEF + row) / 0x100_0000 == Metadata.METHOD;
    assert (TOKEN_TYPE_METHOD_DEF + row) % 0x100_0000 == row;
  }
}
