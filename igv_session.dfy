/** The IGV session builder: one `Resource` per manifest line under a single
    `Resources` element of a `Global` root that names the genome build
    (`make_xml_tree`), and the name of the file the session is written to
    (`write_xml_file`). The XML is kept as an abstract element tree. */
module IgvSession {
  import opened PyString
  import opened PosixPath
  import opened BuildInfo

  /** What a manifest line contributes to the session: the name shown in IGV and
      the path of the file relative to the session file. */
  datatype Resource = Resource(name: string, path: string)

  /** An XML element: its tag, its attributes in order, and its children. */
  datatype Element = Element(tag: string, attributes: seq<(string, string)>, children: seq<Element>)

  /** A manifest line with trailing whitespace removed and, when its grandparent
      directory is literally `None` (species and build unknown), every `None`
      replaced by `other_data`. */
  function NormalizedLine(line: string): (normalized: string)
  {
    var f := RStrip(line, Whitespace);
    if Dirname(Dirname(f)) == "None" then Replace(f, "None", "other_data") else f
  }

  /** The resource of one manifest line; name and path both come from the
      normalized line. */
  function LineResource(line: string): (resource: Resource)
  {
    var f := NormalizedLine(line);
    Resource(Basename(f), Join("..", f))
  }

  function ResourceElement(r: Resource): (element: Element)
  {
    Element("Resource", [("name", r.name), ("path", r.path)], [])
  }

  /** The session tree for a genome and a manifest: a `Global` root naming the
      genome with version 3, holding a single `Resources` element whose children
      are the manifest lines' resources, one per line, in manifest order. */
  predicate SessionTree(root: Element, genome: string, manifest: seq<string>)
  {
    && root.tag == "Global"
    && root.attributes == [("genome", genome), ("version", "3")]
    && |root.children| == 1
    && root.children[0].tag == "Resources"
    && root.children[0].attributes == []
    && |root.children[0].children| == |manifest|
    && forall k :: 0 <= k < |manifest| ==>
         root.children[0].children[k] == ResourceElement(LineResource(manifest[k]))
  }

  /** The `Resource` element of one manifest line. */
  function LineElement(line: string): Element
  {
    ResourceElement(LineResource(line))
  }

  /** `f` applied to every item of `s`, in order, as a list comprehension does. */
  function Map<A, B>(f: A -> B, s: seq<A>): (r: seq<B>)
    ensures |r| == |s|
  {
    if s == [] then [] else Map(f, s[..|s| - 1]) + [f(s[|s| - 1])]
  }

  /** Position `k` of the mapped sequence is `f` of item `k`. */
  lemma {:induction false} MapAt<A, B>(f: A -> B, s: seq<A>, k: nat)
    requires k < |s|
    ensures Map(f, s)[k] == f(s[k])
    decreases |s|
  {
    var init := s[..|s| - 1];
    if k < |init| {
      MapAt(f, init, k);
      assert init[k] == s[k];
    }
  }

  /** Mapping one more item appends `f` of that item. */
  lemma MapStep<A, B>(f: A -> B, s: seq<A>, i: nat)
    requires i < |s|
    ensures Map(f, s[..i + 1]) == Map(f, s[..i]) + [f(s[i])]
  {
    assert s[..i + 1][..i] == s[..i];
  }

  /** The tree built from the `Resource` elements of all the manifest lines is
      the session tree. */
  lemma SessionTreeOfElements(genome: string, manifest: seq<string>)
    ensures SessionTree(Element("Global", [("genome", genome), ("version", "3")], [Element("Resources", [], Map(LineElement, manifest))]), genome, manifest)
  {
    forall k | 0 <= k < |manifest|
      ensures Map(LineElement, manifest)[k] == ResourceElement(LineResource(manifest[k]))
    {
      MapAt(LineElement, manifest, k);
    }
  }

  /** The body of `make_xml_tree`'s loop for one line: strip trailing whitespace,
      rewrite `None` when the grandparent directory is `None`, and build the
      `Resource` element from the result. */
  method MakeResource(line: string) returns (resource: Element)
    ensures resource == ResourceElement(LineResource(line))
    ensures resource.tag == "Resource" && resource.children == []
  {
    var filename := RStrip(line, Whitespace);
    if Dirname(Dirname(filename)) == "None" {
      filename := Replace(filename, "None", "other_data");
    }
    resource := Element("Resource", [("name", Basename(filename)), ("path", Join("..", filename))], []);
  }

  /** `make_xml_tree`: resolve the build from the input name, then append one
      `Resource` per manifest line, in manifest order, under `Resources`. A name
      that does not unpack into four fields yields no tree. */
  method MakeXmlTree(inputFile: string, manifest: seq<string>) returns (r: Result<Element>)
    ensures r.Ok? <==> GetBuildInfo(inputFile).Ok?
    ensures r.Err? ==> r.error == GetBuildInfo(inputFile).error
    ensures r.Ok? ==> SessionTree(r.value, GetBuildInfo(inputFile).value, manifest)
  {
    var build := GetBuildInfo(inputFile);
    if build.Err? {
      return Err(build.error);
    }
    var resources: seq<Element> := [];
    for i := 0 to |manifest|
      invariant resources == Map(LineElement, manifest[..i])
    {
      var resource := MakeResource(manifest[i]);
      MapStep(LineElement, manifest, i);
      resources := resources + [resource];
    }
    assert manifest[..|manifest|] == manifest;
    SessionTreeOfElements(build.value, manifest);
    r := Ok(Element("Global", [("genome", build.value), ("version", "3")], [Element("Resources", [], resources)]));
  }

  /** `write_xml_file`'s output name: the input name with every `temp_igv.txt`
      replaced by `igv.xml`, joined under the `IGV` directory. */
  function OutputName(inputFile: string): (name: string)
  {
    Join("IGV", Replace(inputFile, "temp_igv.txt", "igv.xml"))
  }

  // ---------------------------------------------------------------------------
  // Properties of one manifest line.

  /** Every resource's name is the final component of its path. */
  lemma NameIsBasenameOfPath(line: string)
    ensures LineResource(line).name == Basename(LineResource(line).path)
  {
    BasenameOfJoin("..", NormalizedLine(line));
  }

  /** A blank line (only whitespace, or nothing) still yields a resource: an
      empty name and the path `../`. */
  lemma BlankLine(line: string)
    requires forall i :: 0 <= i < |line| ==> line[i] in Whitespace
    ensures LineResource(line) == Resource("", "../")
  {
    RStripAllStripped(line, Whitespace);
    assert Dirname("") == "";
  }

  /** Trailing whitespace, such as the newline that iterating a file keeps, never
      changes a line's resource. */
  lemma TrailingWhitespaceIgnored(line: string, ws: string)
    requires forall i :: 0 <= i < |ws| ==> ws[i] in Whitespace
    ensures LineResource(line + ws) == LineResource(line)
  {
    RStripTrailing(line, ws, Whitespace);
    assert NormalizedLine(line + ws) == NormalizedLine(line);
  }

  /** A line that normalizes to a relative path `f` has path `../f` and is
      named after the last component of `f`. */
  lemma ResourceOfRelative(line: string, f: string)
    requires NormalizedLine(line) == f
    requires !StartsWith(f, "/")
    ensures LineResource(line) == Resource(Basename(f), "../" + f)
  {
    JoinRelative("..", f);
    assert ".." + "/" == "../";
  }

  /** A relative line whose grandparent directory is not `None` is used as it is,
      trailing whitespace removed: the path is `../` followed by the stripped line,
      and the name is that line's last component. */
  lemma LineKeptVerbatim(line: string)
    requires Dirname(Dirname(RStrip(line, Whitespace))) != "None"
    requires !StartsWith(RStrip(line, Whitespace), "/")
    ensures LineResource(line) ==
      Resource(Basename(RStrip(line, Whitespace)), "../" + RStrip(line, Whitespace))
  {
    ResourceOfRelative(line, RStrip(line, Whitespace));
  }

  /** An absolute line whose grandparent directory is not `None` keeps its own
      path, since `join` discards `..` before an absolute path. */
  lemma LineAbsolute(line: string)
    requires Dirname(Dirname(RStrip(line, Whitespace))) != "None"
    requires StartsWith(RStrip(line, Whitespace), "/")
    ensures LineResource(line) ==
      Resource(Basename(RStrip(line, Whitespace)), RStrip(line, Whitespace))
  {
    assert NormalizedLine(line) == RStrip(line, Whitespace);
  }

  /** Rewriting a path that starts with `None/` and joining it under `..`. */
  lemma RewriteUnderNone(f: string)
    requires StartsWith(f, "None/")
    ensures Join("..", Replace(f, "None", "other_data")) ==
      "../other_data/" + Replace(f[5..], "None", "other_data")
  {
    var rest := f[4..];
    assert f[..4] == "None";
    assert rest == "/" + f[5..];
    assert !StartsWith(rest, "None") by {
      assert rest[0] == '/';
    }
    var tail := Replace(f[5..], "None", "other_data");
    assert rest[1..] == f[5..];
    assert Replace(rest, "None", "other_data") == "/" + tail;
    var g := Replace(f, "None", "other_data");
    assert g == "other_data" + ("/" + tail);
    assert g == "other_data/" + tail;
    assert g[0] == 'o';
    JoinRelative("..", g);
  }

  /** A line whose grandparent directory is `None` starts with `None/`, and its
      path starts with `../other_data/`, the rest of the line rewritten too. */
  lemma LineUnderNone(line: string)
    requires Dirname(Dirname(RStrip(line, Whitespace))) == "None"
    ensures StartsWith(RStrip(line, Whitespace), "None/")
    ensures LineResource(line).path ==
      "../other_data/" + Replace(RStrip(line, Whitespace)[5..], "None", "other_data")
  {
    var f := RStrip(line, Whitespace);
    GrandparentPrefix(f, "None");
    RewriteUnderNone(f);
    assert NormalizedLine(line) == Replace(f, "None", "other_data");
  }

  // ---------------------------------------------------------------------------
  // A file stored under `None/<dir>/`, where the species and build are unknown.

  lemma GrandparentOfChild(dir: string, file: string)
    requires dir != [] && '/' !in dir && '/' !in file
    ensures Dirname(Dirname("None/" + dir + "/" + file)) == "None"
  {
    var d := "None/" + dir;
    assert "None/" + dir + "/" + file == d + "/" + file;
    assert dir[|dir| - 1] in dir;
    assert d[|d| - 1] == dir[|dir| - 1];
    DirnameOfChild(d, file);
    assert d == "None" + "/" + dir;
    DirnameOfChild("None", dir);
  }

  lemma RewriteChild(dir: string, file: string)
    ensures Replace("None/" + dir + "/" + file, "None", "other_data") ==
      "other_data/" + Replace(dir, "None", "other_data") + "/" + Replace(file, "None", "other_data")
  {
    var rest := dir + "/" + file;
    assert "None" + "/" == "None/";
    assert "None/" + dir + "/" + file == "None" + "/" + rest;
    ReplaceAroundChar("None", '/', rest, "None", "other_data");
    ReplaceAroundChar(dir, '/', file, "None", "other_data");
    ReplaceWhole("None", "other_data");
    assert "other_data" + "/" == "other_data/";
  }

  lemma NormalizedUnderNone(dir: string, file: string, ws: string)
    requires dir != [] && '/' !in dir && '/' !in file
    requires file == [] || file[|file| - 1] !in Whitespace
    requires forall i :: 0 <= i < |ws| ==> ws[i] in Whitespace
    ensures NormalizedLine("None/" + dir + "/" + file + ws) ==
      "other_data/" + Replace(dir, "None", "other_data") + "/" + Replace(file, "None", "other_data")
  {
    var line := "None/" + dir + "/" + file;
    assert line[|line| - 1] !in Whitespace;
    assert RStrip(line, Whitespace) == line;
    RStripTrailing(line, ws, Whitespace);
    GrandparentOfChild(dir, file);
    RewriteChild(dir, file);
  }

  lemma ConcatAssoc(a: string, b: string, c: string, d: string, e: string)
    ensures a + (b + c + d + e) == a + b + c + d + e
  {
  }

  lemma ResourceUnderOtherData(line: string, rd: string, rf: string)
    requires NormalizedLine(line) == "other_data/" + rd + "/" + rf
    requires '/' !in rf
    ensures LineResource(line) == Resource(rf, "../" + "other_data/" + rd + "/" + rf)
  {
    var g := "other_data/" + rd + "/" + rf;
    assert g[0] == 'o';
    ResourceOfRelative(line, g);
    BasenameOfChild("other_data/" + rd, rf);
    ConcatAssoc("../", "other_data/", rd, "/", rf);
  }

  /** A line `None/<dir>/<file>` (a relative path whose top directory is `None`),
      followed by any trailing whitespace such as its newline, is moved under
      `../other_data/`, with every `None` in `dir` and `file` rewritten as well,
      and is named after the rewritten file name. */
  lemma LineInUnknownSpecies(dir: string, file: string, ws: string)
    requires dir != [] && '/' !in dir && '/' !in file
    requires file == [] || file[|file| - 1] !in Whitespace
    requires forall i :: 0 <= i < |ws| ==> ws[i] in Whitespace
    ensures var line := "None/" + dir + "/" + file + ws;
      LineResource(line) == Resource(
        Replace(file, "None", "other_data"),
        "../" + "other_data/" + Replace(dir, "None", "other_data") + "/" + Replace(file, "None", "other_data"))
  {
    NormalizedUnderNone(dir, file, ws);
    ReplaceKeepsAbsent(file, "None", "other_data", '/');
    ResourceUnderOtherData("None/" + dir + "/" + file + ws,
      Replace(dir, "None", "other_data"), Replace(file, "None", "other_data"));
  }

  /** The name comes from the rewritten line, not from the manifest line: a file
      literally called `None` in such a directory is shown as `other_data`. */
  lemma NameTakenAfterRewrite(dir: string, ws: string)
    requires dir != [] && '/' !in dir
    requires forall i :: 0 <= i < |ws| ==> ws[i] in Whitespace
    ensures Basename("None/" + dir + "/" + "None") == "None"
    ensures LineResource("None/" + dir + "/" + "None" + ws).name == "other_data"
  {
    LineInUnknownSpecies(dir, "None", ws);
    ReplaceWhole("None", "other_data");
    BasenameOfChild("None/" + dir, "None");
  }

  // ---------------------------------------------------------------------------
  // The output name.

  /** A relative input name is written under `IGV/`, with each `temp_igv.txt`
      replaced by `igv.xml`; an absolute one is written in place, as `join`
      discards `IGV`. */
  lemma OutputNameShape(inputFile: string)
    ensures !StartsWith(inputFile, "/") ==>
      OutputName(inputFile) == "IGV/" + JoinWith(SplitOn(inputFile, "temp_igv.txt"), "igv.xml")
    ensures StartsWith(inputFile, "/") ==>
      OutputName(inputFile) == JoinWith(SplitOn(inputFile, "temp_igv.txt"), "igv.xml")
  {
    ReplaceIsJoinOfSplit(inputFile, "temp_igv.txt", "igv.xml");
    var renamed := Replace(inputFile, "temp_igv.txt", "igv.xml");
    if StartsWith(inputFile, "temp_igv.txt") {
      assert renamed[0] == 'i';
    } else if inputFile != [] {
      assert renamed[0] == inputFile[0];
    }
  }

  /** The usual input `<sample>_<build>_temp_igv.txt` is written as
      `IGV/<sample>_<build>_igv.xml`, for a relative name in which `temp_igv.txt`
      occurs only at the end. */
  lemma OutputNameOfSessionFile(prefix: string)
    requires !StartsWith(prefix, "/")
    requires forall i :: 0 <= i < |prefix| ==> !StartsWith((prefix + "temp_igv.txt")[i..], "temp_igv.txt")
    ensures OutputName(prefix + "temp_igv.txt") == "IGV/" + prefix + "igv.xml"
  {
    ReplaceUnmatchedPrefix(prefix, "temp_igv.txt", "temp_igv.txt", "igv.xml");
    ReplaceWhole("temp_igv.txt", "igv.xml");
    var r := prefix + "igv.xml";
    assert !StartsWith(r, "/") by {
      if prefix != [] { assert r[0] == prefix[0]; } else { assert r[0] == 'i'; }
    }
    JoinRelative("IGV", r);
  }
}
