/**
 * The archive side of project generation: the template is copied under
 * the project's folder and every diagram node becomes an Angular
 * component folder, after which app.module.ts is rewritten. An archive is
 * a map from path to contents that the writes update in place.
 */
module Archive {
  import opened Wrappers
  import opened Text
  import opened ProjectGenerator

  /** The archive being built (a JSZip instance): path to file contents. */
  class Zip {
    var files: map<string, string>

    constructor ()
      ensures files == map[]
    {
      files := map[];
    }

    /** zip.file(path, content): adds or replaces one file. */
    method File(path: string, content: string)
      modifies this
      ensures files == old(files)[path := content]
    {
      files := files[path := content];
    }

    /**
     * copyTemplateFiles: every template file is written under
     * `projectName/`. The writes land in whatever order the promises
     * settle; the result does not depend on it because the new paths are
     * pairwise distinct.
     */
    method CopyTemplateFiles(template: map<string, string>, projectName: string)
      modifies this
      ensures files == old(files) + Relocated(template, template.Keys, projectName)
    {
      var pending := template.Keys;
      ghost var copied: set<string> := {};
      while pending != {}
        invariant pending + copied == template.Keys && pending !! copied
        invariant files == old(files) + Relocated(template, copied, projectName)
        decreases pending
      {
        var path :| path in pending;
        CopyFile(template, old(files), copied, projectName, path);
        pending := pending - {path};
        copied := copied + {path};
      }
    }

    /**
     * The callback of one template file: its content written at the new
     * path, which extends the relocated copy by that file.
     */
    method CopyFile(template: map<string, string>, ghost start: map<string, string>, ghost copied: set<string>, projectName: string, path: string)
      requires copied <= template.Keys && path in template && path !in copied
      requires files == start + Relocated(template, copied, projectName)
      modifies this
      ensures files == start + Relocated(template, copied + {path}, projectName)
    {
      CopyStep(start, template, copied, projectName, path);
      File(projectName + "/" + path, template[path]);
    }

    /**
     * updateFrontend: three files per node, in nodeDataArray order, then
     * app.module.ts rewritten from its current contents (empty when
     * absent). A node without both member lists makes the HTML template
     * throw after that node's .ts file was written; the rest is skipped.
     */
    method UpdateFrontend(nodes: seq<NodeRecord>, projectName: string) returns (ok: bool)
      modifies this
      ensures ok <==> AllHaveMemberLists(nodes)
      ensures ok ==> files == Frontend(old(files), projectName, nodes)
      ensures !ok ==>
        var k := FirstWithoutMemberLists(nodes);
        && k < |nodes|
        && files == Components(old(files), projectName, FilesOf(nodes[..k]))
             [ComponentPath(projectName, SanitizeClassName(nodes[k].nombre), "ts") := GetComponentTs(SanitizeClassName(nodes[k].nombre))]
    {
      ok := WriteComponents(nodes, projectName);
      if ok {
        WriteAppModule(nodes, projectName);
      }
    }

    /** The per-node part of updateFrontend: the loop over nodeDataArray. */
    method WriteComponents(nodes: seq<NodeRecord>, projectName: string) returns (ok: bool)
      modifies this
      ensures ok <==> AllHaveMemberLists(nodes)
      ensures ok ==> files == Components(old(files), projectName, FilesOf(nodes))
      ensures !ok ==>
        var k := FirstWithoutMemberLists(nodes);
        && k < |nodes|
        && files == Components(old(files), projectName, FilesOf(nodes[..k]))
             [ComponentPath(projectName, SanitizeClassName(nodes[k].nombre), "ts") := GetComponentTs(SanitizeClassName(nodes[k].nombre))]
    {
      var k := 0;
      while k < |nodes|
        invariant 0 <= k <= |nodes|
        invariant AllHaveMemberLists(nodes[..k])
        invariant files == Components(old(files), projectName, FilesOf(nodes[..k]))
      {
        var written := WriteNode(nodes[k], projectName);
        if !written {
          FirstWithoutMemberListsIs(nodes, k);
          return false;
        }
        ComponentsStep(old(files), projectName, nodes, k);
        assert files == Components(old(files), projectName, FilesOf(nodes[..k + 1]));
        k := k + 1;
      }
      assert nodes[..k] == nodes;
      return true;
    }

    /**
     * One iteration of the loop: the .ts file, then the template (which
     * throws without both member lists), then the empty .css file.
     */
    method WriteNode(node: NodeRecord, projectName: string) returns (ok: bool)
      modifies this
      ensures ok <==> HasMemberLists(node)
      ensures ok ==> files == WriteComponent(old(files), projectName, NodeFiles(node))
      ensures !ok ==> var c := SanitizeClassName(node.nombre);
        files == old(files)[ComponentPath(projectName, c, "ts") := GetComponentTs(c)]
    {
      var componentName := SanitizeClassName(node.nombre);
      File(ComponentPath(projectName, componentName, "ts"), GetComponentTs(componentName));
      var html := GetComponentHtml(node);
      if html.Failure? {
        return false;
      }
      File(ComponentPath(projectName, componentName, "html"), html.value);
      File(ComponentPath(projectName, componentName, "css"), "");
      return true;
    }

    /** The last step of updateFrontend: app.module.ts read (or "") and rewritten. */
    method WriteAppModule(nodes: seq<NodeRecord>, projectName: string)
      modifies this
      ensures var modulePath := AppModulePath(projectName);
        var original := if modulePath in old(files) then old(files)[modulePath] else "";
        files == old(files)[modulePath := UpdateAppModule(original, nodes)]
    {
      var modulePath := AppModulePath(projectName);
      var original := if modulePath in files then files[modulePath] else "";
      File(modulePath, UpdateAppModule(original, nodes));
    }
  }

  /** Template paths in `keys`, moved under `projectName/`. */
  function Relocated(template: map<string, string>, keys: set<string>, projectName: string): (m: map<string, string>)
    requires keys <= template.Keys
    ensures forall p :: p in keys ==> projectName + "/" + p in m && m[projectName + "/" + p] == template[p]
    ensures forall q :: q in m ==> exists p :: p in keys && q == projectName + "/" + p
  {
    var prefix := projectName + "/";
    assert forall p, q :: prefix + p == prefix + q ==> p == q by {
      forall p, q ensures prefix + p == prefix + q ==> p == q {
        PrefixCancel(prefix, p, q);
      }
    }
    map p | p in keys :: prefix + p := template[p]
  }

  /** Copying one more template file extends the relocated map by one entry. */
  lemma RelocatedAdd(template: map<string, string>, keys: set<string>, projectName: string, p: string)
    requires keys <= template.Keys && p in template && p !in keys
    ensures Relocated(template, keys + {p}, projectName)
      == Relocated(template, keys, projectName)[projectName + "/" + p := template[p]]
  {
    var before := Relocated(template, keys, projectName);
    var after := Relocated(template, keys + {p}, projectName);
    var q := projectName + "/" + p;
    forall r | r in after ensures r in before[q := template[p]] && after[r] == before[q := template[p]][r] {
      var p' :| p' in keys + {p} && r == projectName + "/" + p';
      PrefixCancel(projectName + "/", p', p);
    }
  }

  /** One loop step of CopyTemplateFiles. */
  lemma CopyStep(before: map<string, string>, template: map<string, string>, keys: set<string>, projectName: string, p: string)
    requires keys <= template.Keys && p in template && p !in keys
    ensures (before + Relocated(template, keys, projectName))[projectName + "/" + p := template[p]]
      == before + Relocated(template, keys + {p}, projectName)
  {
    RelocatedAdd(template, keys, projectName, p);
  }

  /** Appending to the same prefix is injective. */
  lemma PrefixCancel(prefix: string, x: string, y: string)
    ensures prefix + x == prefix + y ==> x == y
  {
    if prefix + x == prefix + y {
      assert x == (prefix + x)[|prefix|..];
      assert y == (prefix + y)[|prefix|..];
    }
  }

  // ---------------------------------------------------------------------
  // File layout of updateFrontend
  // ---------------------------------------------------------------------

  function AppFolder(projectName: string): string {
    projectName + "/frontend/src/app/"
  }

  /** `projectName/frontend/src/app/C/C.component.ext` */
  function ComponentPath(projectName: string, componentName: string, ext: string): string {
    AppFolder(projectName) + componentName + "/" + componentName + ".component." + ext
  }

  function AppModulePath(projectName: string): string {
    AppFolder(projectName) + "app.module.ts"
  }

  predicate AllHaveMemberLists(nodes: seq<NodeRecord>) {
    forall k :: 0 <= k < |nodes| ==> HasMemberLists(nodes[k])
  }

  /** The position of the first node whose HTML template throws, or |nodes|. */
  function FirstWithoutMemberLists(nodes: seq<NodeRecord>): (r: nat)
    ensures r <= |nodes|
    ensures AllHaveMemberLists(nodes[..r])
    ensures r < |nodes| <==> !AllHaveMemberLists(nodes)
    ensures r < |nodes| ==> !HasMemberLists(nodes[r])
  {
    if nodes == [] then 0
    else if !HasMemberLists(nodes[0]) then 0
    else
      var r := FirstWithoutMemberLists(nodes[1..]);
      assert nodes[..r + 1] == [nodes[0]] + nodes[1..][..r];
      assert !AllHaveMemberLists(nodes[1..]) ==> !AllHaveMemberLists(nodes);
      1 + r
  }

  lemma FirstWithoutMemberListsIs(nodes: seq<NodeRecord>, k: nat)
    requires k < |nodes| && AllHaveMemberLists(nodes[..k]) && !HasMemberLists(nodes[k])
    ensures FirstWithoutMemberLists(nodes) == k && !AllHaveMemberLists(nodes)
  {
    var r := FirstWithoutMemberLists(nodes);
    assert forall j :: 0 <= j < k ==> nodes[..k][j] == nodes[j];
    assert forall j :: 0 <= j < r ==> nodes[..r][j] == nodes[j];
  }

  /** What one node contributes: its folder name and its two generated files. */
  datatype ComponentFiles = ComponentFiles(name: string, ts: string, html: string)

  function NodeFiles(node: NodeRecord): (f: ComponentFiles)
    requires HasMemberLists(node)
    ensures f.name == SanitizeClassName(node.nombre) && '/' !in f.name
    ensures f.ts == GetComponentTs(f.name) && f.html == GetComponentHtml(node).value
  {
    var c := SanitizeClassName(node.nombre);
    SanitizedIsPlain(node.nombre);
    ComponentFiles(c, GetComponentTs(c), GetComponentHtml(node).value)
  }

  function FilesOf(nodes: seq<NodeRecord>): (fs: seq<ComponentFiles>)
    requires AllHaveMemberLists(nodes)
    ensures |fs| == |nodes|
    ensures forall k :: 0 <= k < |nodes| ==> fs[k] == NodeFiles(nodes[k])
    ensures PlainNames(fs)
  {
    seq(|nodes|, k requires 0 <= k < |nodes| => NodeFiles(nodes[k]))
  }

  predicate PlainNames(fs: seq<ComponentFiles>) {
    forall k :: 0 <= k < |fs| ==> '/' !in fs[k].name
  }

  /** The three files written for one node: .ts, .html, then an empty .css. */
  function WriteComponent(files: map<string, string>, projectName: string, f: ComponentFiles): map<string, string> {
    files[ComponentPath(projectName, f.name, "ts") := f.ts]
         [ComponentPath(projectName, f.name, "html") := f.html]
         [ComponentPath(projectName, f.name, "css") := ""]
  }

  /** The archive after the component files of `fs` were written in order. */
  function Components(files: map<string, string>, projectName: string, fs: seq<ComponentFiles>): map<string, string>
    decreases |fs|
  {
    if fs == [] then files
    else WriteComponent(Components(files, projectName, fs[..|fs| - 1]), projectName, fs[|fs| - 1])
  }

  /** One loop step of UpdateFrontend: the next node's files are written. */
  lemma ComponentsStep(files: map<string, string>, projectName: string, nodes: seq<NodeRecord>, k: nat)
    requires k < |nodes| && AllHaveMemberLists(nodes[..k]) && HasMemberLists(nodes[k])
    ensures AllHaveMemberLists(nodes[..k + 1])
    ensures Components(files, projectName, FilesOf(nodes[..k + 1]))
      == WriteComponent(Components(files, projectName, FilesOf(nodes[..k])), projectName, NodeFiles(nodes[k]))
  {
    AllHaveExtend(nodes, k);
    var fs := FilesOf(nodes[..k + 1]);
    assert fs[..k] == FilesOf(nodes[..k]);
    assert fs[k] == NodeFiles(nodes[k]);
    ComponentsLast(files, projectName, fs);
  }

  /** Components writes the last entry after all the others. */
  lemma ComponentsLast(files: map<string, string>, projectName: string, fs: seq<ComponentFiles>)
    requires fs != []
    ensures Components(files, projectName, fs)
      == WriteComponent(Components(files, projectName, fs[..|fs| - 1]), projectName, fs[|fs| - 1])
  {
  }

  lemma AllHaveExtend(nodes: seq<NodeRecord>, k: nat)
    requires k < |nodes| && AllHaveMemberLists(nodes[..k]) && HasMemberLists(nodes[k])
    ensures AllHaveMemberLists(nodes[..k + 1])
  {
    assert nodes[..k + 1] == nodes[..k] + [nodes[k]];
  }

  /** The archive after updateFrontend completes. */
  function Frontend(files: map<string, string>, projectName: string, nodes: seq<NodeRecord>): map<string, string>
    requires AllHaveMemberLists(nodes)
  {
    var written := Components(files, projectName, FilesOf(nodes));
    var modulePath := AppModulePath(projectName);
    var original := if modulePath in written then written[modulePath] else "";
    written[modulePath := UpdateAppModule(original, nodes)]
  }

  // ---------------------------------------------------------------------
  // Layout lemmas
  // ---------------------------------------------------------------------

  /** Two component paths of one project coincide exactly when folder name and extension do. */
  lemma ComponentPathInjective(projectName: string, c: string, e: string, c': string, e': string)
    requires '/' !in c && '/' !in c'
    ensures ComponentPath(projectName, c, e) == ComponentPath(projectName, c', e') <==> c == c' && e == e'
  {
    var folder := AppFolder(projectName);
    var rest := c + ".component." + e;
    var rest' := c' + ".component." + e';
    var whole := c + ['/'] + rest;
    var whole' := c' + ['/'] + rest';
    assert ComponentPath(projectName, c, e) == folder + whole;
    assert ComponentPath(projectName, c', e') == folder + whole';
    if ComponentPath(projectName, c, e) == ComponentPath(projectName, c', e') {
      PrefixCancel(folder, whole, whole');
      SplitAtSeparator(c, rest, '/');
      SplitAtSeparator(c', rest', '/');
      assert Split(whole, '/')[0] == c;
      assert Split(whole', '/')[0] == c';
      PrefixCancel(c + ['/'], rest, rest');
      assert rest == (c + ".component.") + e;
      assert rest' == (c + ".component.") + e';
      PrefixCancel(c + ".component.", e, e');
    }
  }

  /** app.module.ts is never overwritten by a component file. */
  lemma AppModuleIsNoComponentPath(projectName: string, c: string, e: string)
    ensures ComponentPath(projectName, c, e) != AppModulePath(projectName)
  {
    var folder := AppFolder(projectName);
    var tail := c + "/" + c + ".component." + e;
    assert ComponentPath(projectName, c, e) == folder + tail;
    assert tail[|c|] == '/';
    assert forall i :: 0 <= i < |"app.module.ts"| ==> "app.module.ts"[i] != '/';
    PrefixCancel(folder, tail, "app.module.ts");
  }

  /** The component paths written for `f`. */
  function PathsOf(projectName: string, f: ComponentFiles): set<string> {
    {ComponentPath(projectName, f.name, "ts"), ComponentPath(projectName, f.name, "html"), ComponentPath(projectName, f.name, "css")}
  }

  /** Files outside every component folder keep their contents. */
  lemma {:induction false} ComponentsElsewhere(files: map<string, string>, projectName: string, fs: seq<ComponentFiles>, path: string)
    requires forall k :: 0 <= k < |fs| ==> path !in PathsOf(projectName, fs[k])
    ensures var m := Components(files, projectName, fs);
      (path in m <==> path in files) && (path in files ==> m[path] == files[path])
  {
    if fs != [] {
      var init := fs[..|fs| - 1];
      assert forall k :: 0 <= k < |init| ==> init[k] == fs[k];
      ComponentsElsewhere(files, projectName, init, path);
    }
  }

  /** The position of the last entry whose folder name is `c`, or -1. */
  function LastNamed(fs: seq<ComponentFiles>, c: string): (r: int)
    ensures -1 <= r < |fs|
    ensures r >= 0 ==> fs[r].name == c
    ensures forall j :: r < j < |fs| ==> fs[j].name != c
  {
    if fs == [] then -1
    else if fs[|fs| - 1].name == c then |fs| - 1
    else LastNamed(fs[..|fs| - 1], c)
  }

  /** What WriteComponent leaves at a path of another folder, or of its own. */
  lemma WriteComponentAt(files: map<string, string>, projectName: string, f: ComponentFiles, c: string, e: string)
    requires '/' !in f.name && '/' !in c
    ensures var m := WriteComponent(files, projectName, f);
      var path := ComponentPath(projectName, c, e);
      && (c == f.name && e == "ts" ==> path in m && m[path] == f.ts)
      && (c == f.name && e == "html" ==> path in m && m[path] == f.html)
      && (c == f.name && e == "css" ==> path in m && m[path] == "")
      && (c != f.name ==> (path in m <==> path in files) && (path in files ==> m[path] == files[path]))
  {
    ComponentPathInjective(projectName, c, e, f.name, "ts");
    ComponentPathInjective(projectName, c, e, f.name, "html");
    ComponentPathInjective(projectName, c, e, f.name, "css");
  }

  /**
   * Entries that share a folder name share a folder: its .ts and .html
   * files are those of the last of them, and its .css file is empty.
   */
  lemma {:induction false} ComponentsLastWriter(files: map<string, string>, projectName: string, fs: seq<ComponentFiles>, k: nat)
    requires PlainNames(fs) && k < |fs|
    ensures var last := LastNamed(fs, fs[k].name);
      var m := Components(files, projectName, fs);
      var ts := ComponentPath(projectName, fs[k].name, "ts");
      var html := ComponentPath(projectName, fs[k].name, "html");
      var css := ComponentPath(projectName, fs[k].name, "css");
      && k <= last
      && ts in m && m[ts] == fs[last].ts
      && html in m && m[html] == fs[last].html
      && css in m && m[css] == ""
  {
    var n := |fs| - 1;
    var init := fs[..n];
    var c := fs[k].name;
    var before := Components(files, projectName, init);
    WriteComponentAt(before, projectName, fs[n], c, "ts");
    WriteComponentAt(before, projectName, fs[n], c, "html");
    WriteComponentAt(before, projectName, fs[n], c, "css");
    if fs[n].name != c {
      assert init[k] == fs[k];
      assert forall j :: 0 <= j < |init| ==> init[j] == fs[j];
      ComponentsLastWriter(files, projectName, init, k);
      assert LastNamed(fs, c) == LastNamed(init, c);
    }
  }

  /** Every node's .ts file holds the component class for its sanitized name. */
  lemma NodeTsFile(files: map<string, string>, projectName: string, nodes: seq<NodeRecord>, k: nat)
    requires AllHaveMemberLists(nodes) && k < |nodes|
    ensures var c := SanitizeClassName(nodes[k].nombre);
      var m := Components(files, projectName, FilesOf(nodes));
      ComponentPath(projectName, c, "ts") in m && m[ComponentPath(projectName, c, "ts")] == GetComponentTs(c)
  {
    var fs := FilesOf(nodes);
    FolderOfNode(files, projectName, nodes, k);
    var last := LastNamed(fs, fs[k].name);
    FilesOfEntry(nodes, last);
    FilesOfEntry(nodes, k);
  }

  /** Every node's .css file is empty. */
  lemma NodeCssFile(files: map<string, string>, projectName: string, nodes: seq<NodeRecord>, k: nat)
    requires AllHaveMemberLists(nodes) && k < |nodes|
    ensures var c := SanitizeClassName(nodes[k].nombre);
      var m := Components(files, projectName, FilesOf(nodes));
      ComponentPath(projectName, c, "css") in m && m[ComponentPath(projectName, c, "css")] == ""
  {
    FolderOfNode(files, projectName, nodes, k);
    FilesOfEntry(nodes, k);
  }

  /** The files in node `k`'s folder are those of the last entry with its name. */
  lemma FolderOfNode(files: map<string, string>, projectName: string, nodes: seq<NodeRecord>, k: nat)
    requires AllHaveMemberLists(nodes) && k < |nodes|
    ensures var fs := FilesOf(nodes);
      var m := Components(files, projectName, fs);
      var last := LastNamed(fs, fs[k].name);
      var ts := ComponentPath(projectName, fs[k].name, "ts");
      var html := ComponentPath(projectName, fs[k].name, "html");
      var css := ComponentPath(projectName, fs[k].name, "css");
      && k <= last
      && ts in m && m[ts] == fs[last].ts
      && html in m && m[html] == fs[last].html
      && css in m && m[css] == ""
  {
    ComponentsLastWriter(files, projectName, FilesOf(nodes), k);
  }

  /**
   * A node's .html file holds the template of a node at or after it whose
   * name sanitizes to the same class: the last such node writes it.
   */
  lemma NodeHtmlFile(files: map<string, string>, projectName: string, nodes: seq<NodeRecord>, k: nat)
    requires AllHaveMemberLists(nodes) && k < |nodes|
    ensures var c := SanitizeClassName(nodes[k].nombre);
      var m := Components(files, projectName, FilesOf(nodes));
      var path := ComponentPath(projectName, c, "html");
      && path in m
      && exists j :: k <= j < |nodes| && SanitizeClassName(nodes[j].nombre) == c && m[path] == GetComponentHtml(nodes[j]).value
  {
    var fs := FilesOf(nodes);
    FolderOfNode(files, projectName, nodes, k);
    var last := LastNamed(fs, fs[k].name);
    FilesOfEntry(nodes, last);
    FilesOfEntry(nodes, k);
  }

  /** When no later node sanitizes to the same class, a node's .html file is its own template. */
  lemma NodeHtmlFileUnshadowed(files: map<string, string>, projectName: string, nodes: seq<NodeRecord>, k: nat)
    requires AllHaveMemberLists(nodes) && k < |nodes|
    requires forall j :: k < j < |nodes| ==> SanitizeClassName(nodes[j].nombre) != SanitizeClassName(nodes[k].nombre)
    ensures var c := SanitizeClassName(nodes[k].nombre);
      var m := Components(files, projectName, FilesOf(nodes));
      var path := ComponentPath(projectName, c, "html");
      path in m && m[path] == GetComponentHtml(nodes[k]).value
  {
    var fs := FilesOf(nodes);
    FolderOfNode(files, projectName, nodes, k);
    var last := LastNamed(fs, fs[k].name);
    FilesOfEntry(nodes, last);
    FilesOfEntry(nodes, k);
    var c := SanitizeClassName(nodes[k].nombre);
    assert SanitizeClassName(nodes[last].nombre) == c;
    assert last == k;
  }

  /**
   * After updateFrontend each node's folder holds its .ts file, the .html
   * template of a same-named node at or after it, and an empty .css file:
   * rewriting app.module.ts does not touch them.
   */
  lemma FrontendNodeFiles(files: map<string, string>, projectName: string, nodes: seq<NodeRecord>, k: nat)
    requires AllHaveMemberLists(nodes) && k < |nodes|
    ensures var c := SanitizeClassName(nodes[k].nombre);
      var m := Frontend(files, projectName, nodes);
      var ts := ComponentPath(projectName, c, "ts");
      var html := ComponentPath(projectName, c, "html");
      var css := ComponentPath(projectName, c, "css");
      && ts in m && m[ts] == GetComponentTs(c)
      && html in m
      && (exists j :: k <= j < |nodes| && SanitizeClassName(nodes[j].nombre) == c && m[html] == GetComponentHtml(nodes[j]).value)
      && css in m && m[css] == ""
  {
    var c := SanitizeClassName(nodes[k].nombre);
    NodeTsFile(files, projectName, nodes, k);
    NodeHtmlFile(files, projectName, nodes, k);
    NodeCssFile(files, projectName, nodes, k);
    FrontendKeepsComponentFile(files, projectName, nodes, c, "ts");
    FrontendKeepsComponentFile(files, projectName, nodes, c, "html");
    FrontendKeepsComponentFile(files, projectName, nodes, c, "css");
  }

  /** Rewriting app.module.ts leaves every component file as the component writes left it. */
  lemma FrontendKeepsComponentFile(files: map<string, string>, projectName: string, nodes: seq<NodeRecord>, c: string, e: string)
    requires AllHaveMemberLists(nodes)
    ensures var path := ComponentPath(projectName, c, e);
      var written := Components(files, projectName, FilesOf(nodes));
      var m := Frontend(files, projectName, nodes);
      (path in m <==> path in written) && (path in written ==> m[path] == written[path])
  {
    AppModuleIsNoComponentPath(projectName, c, e);
  }

  /** Entry `j` of FilesOf holds node `j`'s folder name and template. */
  lemma FilesOfEntry(nodes: seq<NodeRecord>, j: nat)
    requires AllHaveMemberLists(nodes) && j < |nodes|
    ensures FilesOf(nodes)[j].name == SanitizeClassName(nodes[j].nombre)
    ensures FilesOf(nodes)[j].ts == GetComponentTs(FilesOf(nodes)[j].name)
    ensures FilesOf(nodes)[j].html == GetComponentHtml(nodes[j]).value
  {
    assert FilesOf(nodes)[j] == NodeFiles(nodes[j]);
  }

  /**
   * After updateFrontend, app.module.ts is the rewrite of the file that
   * was there before (the copied template's), or of "" when there was none.
   */
  lemma FrontendAppModule(files: map<string, string>, projectName: string, nodes: seq<NodeRecord>)
    requires AllHaveMemberLists(nodes)
    ensures var modulePath := AppModulePath(projectName);
      var original := if modulePath in files then files[modulePath] else "";
      var m := Frontend(files, projectName, nodes);
      modulePath in m && m[modulePath] == UpdateAppModule(original, nodes)
  {
    ComponentsKeepAppModule(files, projectName, FilesOf(nodes));
  }

  /** No component file lands on app.module.ts. */
  lemma ComponentsKeepAppModule(files: map<string, string>, projectName: string, fs: seq<ComponentFiles>)
    ensures var modulePath := AppModulePath(projectName);
      var m := Components(files, projectName, fs);
      (modulePath in m <==> modulePath in files) && (modulePath in files ==> m[modulePath] == files[modulePath])
  {
    var modulePath := AppModulePath(projectName);
    forall k | 0 <= k < |fs| ensures modulePath !in PathsOf(projectName, fs[k]) {
      AppModuleIsNoComponentPath(projectName, fs[k].name, "ts");
      AppModuleIsNoComponentPath(projectName, fs[k].name, "html");
      AppModuleIsNoComponentPath(projectName, fs[k].name, "css");
    }
    ComponentsElsewhere(files, projectName, fs, modulePath);
  }

  /**
   * updateFrontend writes only the nodes' component files and
   * app.module.ts: every other path of the archive is untouched.
   */
  lemma FrontendElsewhere(files: map<string, string>, projectName: string, nodes: seq<NodeRecord>, path: string)
    requires AllHaveMemberLists(nodes)
    requires path != AppModulePath(projectName)
    requires forall k :: 0 <= k < |nodes| ==> path !in PathsOf(projectName, NodeFiles(nodes[k]))
    ensures var m := Frontend(files, projectName, nodes);
      (path in m <==> path in files) && (path in files ==> m[path] == files[path])
  {
    var fs := FilesOf(nodes);
    assert forall k :: 0 <= k < |fs| ==> fs[k] == NodeFiles(nodes[k]);
    ComponentsElsewhere(files, projectName, fs, path);
  }
}
