/** file-viewer/src/App.tsx: on load the viewer searches the file tree for
    the first HTML page and opens it. */
module App {
  import opened Wrappers
  import opened Strings
  import opened Types

  /** `name.toLowerCase().endsWith('.html')`. */
  predicate IsHtmlName(name: string) {
    EndsWith(Lower(name), ".html")
  }

  /** `findHtml(items)`: a depth-first walk that descends into every node
      with a children list and returns the first other node whose name ends
      in ".html", or null. */
  function FindHtml(items: seq<FileNode>): Option<FileNode>
    decreases items
  {
    if items == [] then None
    else
      var item := items[0];
      if Descends(item) then
        var found := FindHtml(item.children.nodes);
        if found.Some? then found else FindHtml(items[1..])
      else if IsHtmlName(item.name) then Some(item)
      else FindHtml(items[1..])
  }

  /** The reference: the first of `nodes` with an HTML name. */
  function FirstHtml(nodes: seq<FileNode>): Option<FileNode> {
    if nodes == [] then None
    else if IsHtmlName(nodes[0].name) then Some(nodes[0])
    else FirstHtml(nodes[1..])
  }

  /** `FirstHtml` finds a node with an HTML name that no earlier node has,
      and finds nothing exactly when no node has one. */
  lemma {:induction false} FirstHtmlSpec(nodes: seq<FileNode>)
    ensures FirstHtml(nodes).None? <==> forall i :: 0 <= i < |nodes| ==> !IsHtmlName(nodes[i].name)
    ensures FirstHtml(nodes).Some? ==>
      exists k :: 0 <= k < |nodes| && nodes[k] == FirstHtml(nodes).value && IsHtmlName(nodes[k].name)
                  && forall j :: 0 <= j < k ==> !IsHtmlName(nodes[j].name)
    decreases nodes
  {
    if nodes != [] && !IsHtmlName(nodes[0].name) {
      var rest := nodes[1..];
      FirstHtmlSpec(rest);
      assert forall i :: 1 <= i < |nodes| ==> nodes[i] == rest[i - 1];
      if FirstHtml(rest).Some? {
        var k :| 0 <= k < |rest| && rest[k] == FirstHtml(rest).value && IsHtmlName(rest[k].name)
                 && forall j :: 0 <= j < k ==> !IsHtmlName(rest[j].name);
        assert nodes[k + 1] == rest[k];
      } else {
        forall i | 0 <= i < |nodes| ensures !IsHtmlName(nodes[i].name) {
          if i > 0 { assert nodes[i] == rest[i - 1]; }
        }
      }
    } else if nodes != [] {
      assert nodes[0] == FirstHtml(nodes).value;
    }
  }

  lemma {:induction false} FirstHtmlAppend(a: seq<FileNode>, b: seq<FileNode>)
    ensures FirstHtml(a + b) == if FirstHtml(a).Some? then FirstHtml(a) else FirstHtml(b)
    decreases a
  {
    if a == [] {
      assert a + b == b;
    } else {
      assert (a + b)[1..] == a[1..] + b;
      FirstHtmlAppend(a[1..], b);
    }
  }

  /** `findHtml` returns the first node in depth-first pre-order, among the
      nodes it does not descend into, whose name ends in ".html" (ignoring
      case); null exactly when there is none. */
  lemma {:induction false} FindHtmlIsFirstHtmlLeaf(items: seq<FileNode>)
    ensures FindHtml(items) == FirstHtml(Leaves(items))
    decreases items
  {
    if items != [] {
      var item := items[0];
      FindHtmlIsFirstHtmlLeaf(items[1..]);
      FirstHtmlAppend(LeavesOf(item), Leaves(items[1..]));
      if Descends(item) {
        FindHtmlIsFirstHtmlLeaf(item.children.nodes);
      } else {
        assert [item][1..] == [];
        FirstHtmlAppend([item], []);
      }
    }
  }

  lemma {:induction false} LeavesDoNotDescend(items: seq<FileNode>)
    ensures forall i :: 0 <= i < |Leaves(items)| ==> !Descends(Leaves(items)[i])
    decreases items
  {
    if items != [] {
      var item := items[0];
      LeavesDoNotDescend(items[1..]);
      if Descends(item) {
        LeavesDoNotDescend(item.children.nodes);
      }
      var l := Leaves(items);
      forall i | 0 <= i < |l| ensures !Descends(l[i]) {
        if i < |LeavesOf(item)| {
          assert l[i] == LeavesOf(item)[i];
        } else {
          assert l[i] == Leaves(items[1..])[i - |LeavesOf(item)|];
        }
      }
    }
  }

  /** What `findHtml` returns is a node of the tree with an HTML name and
      is never a directory with a children list, even one named `*.html`;
      and a page ending in ".htm" is never picked. */
  lemma FoundHtmlIsAPage(items: seq<FileNode>)
    ensures FindHtml(items).Some? ==>
      && FindHtml(items).value in Leaves(items)
      && IsHtmlName(FindHtml(items).value.name)
      && !Descends(FindHtml(items).value)
      && !EndsWith(Lower(FindHtml(items).value.name), ".htm")
    ensures FindHtml(items).None? <==> forall n :: n in Leaves(items) ==> !IsHtmlName(n.name)
  {
    FindHtmlIsFirstHtmlLeaf(items);
    FirstHtmlSpec(Leaves(items));
    LeavesDoNotDescend(items);
    if FindHtml(items).Some? {
      var l := Lower(FindHtml(items).value.name);
      assert l[|l| - 1] == 'l';
    }
  }

  /** The selection state `findHtmlFile` writes. */
  class Selection {
    var selectedFile: Option<string>
    var selectedFileType: Option<FileType>

    constructor ()
      ensures selectedFile == None && selectedFileType == None
    {
      selectedFile := None;
      selectedFileType := None;
    }

    /** After loading `files`: on a hit the selected path becomes the page's
        path and the type 'html'; otherwise nothing changes. */
    method SelectFirstHtml(files: seq<FileNode>)
      modifies this
      ensures FindHtml(files).Some? ==>
        selectedFile == Some(FindHtml(files).value.path) && selectedFileType == Some(Html)
      ensures FindHtml(files).None? ==>
        selectedFile == old(selectedFile) && selectedFileType == old(selectedFileType)
    {
      var htmlFile := FindHtml(files);
      if htmlFile.Some? {
        selectedFile := Some(htmlFile.value.path);
        selectedFileType := Some(Html);
      }
    }
  }
}
