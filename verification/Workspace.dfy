/** The files of ts-apps/cloud-agent/src/node-workspace.ts as `applyEdits` sees them. */
module Workspaces {
  import opened Wrappers
  import opened Edits

  datatype TextEdit = TextEdit(uri: string, edit: Edit)

  /** The edits of one file, in list order. */
  function EditsOf(edits: seq<TextEdit>, uri: string): seq<Edit> {
    if edits == [] then []
    else
      var last := edits[|edits| - 1];
      EditsOf(edits[..|edits| - 1], uri) + if last.uri == uri then [last.edit] else []
  }

  lemma EditsOfSnoc(edits: seq<TextEdit>, e: TextEdit, uri: string)
    ensures EditsOf(edits + [e], uri) == EditsOf(edits, uri) + if e.uri == uri then [e.edit] else []
  {
    assert (edits + [e])[..|edits|] == edits;
  }

  /** The file exists and its edits fit; nothing is asked of a file without edits. */
  ghost predicate Applicable(files: map<string, string>, edits: seq<TextEdit>, uri: string) {
    EditsOf(edits, uri) == [] || (uri in files && Fits(files[uri], EditsOf(edits, uri)))
  }

  function NewText(files: map<string, string>, edits: seq<TextEdit>, uri: string): string
    requires uri in files
  {
    Replaced(files[uri], EditsOf(edits, uri), 0)
  }

  /** `byUri` is the grouping of `edits` and `order` the order in which its keys came. */
  ghost predicate Grouped(edits: seq<TextEdit>, byUri: map<string, seq<Edit>>, order: seq<string>) {
    && (forall u :: u in byUri <==> EditsOf(edits, u) != [])
    && (forall u | u in byUri :: byUri[u] == EditsOf(edits, u))
    && (forall u :: u in order <==> u in byUri)
    && (forall i, j | 0 <= i < j < |order| :: order[i] != order[j])
  }

  /** One more edit: its file's list grows, or its file joins the order. */
  lemma GroupOne(edits: seq<TextEdit>, e: TextEdit, byUri: map<string, seq<Edit>>, order: seq<string>)
    requires Grouped(edits, byUri, order)
    ensures e.uri in byUri ==> Grouped(edits + [e], byUri[e.uri := byUri[e.uri] + [e.edit]], order)
    ensures e.uri !in byUri ==> Grouped(edits + [e], byUri[e.uri := [e.edit]], order + [e.uri])
  {
    hide EditsOf;
    forall u ensures EditsOf(edits + [e], u) == EditsOf(edits, u) + if e.uri == u then [e.edit] else [] {
      EditsOfSnoc(edits, e, u);
    }
  }

  lemma NothingGrouped()
    ensures Grouped([], map[], [])
  {
  }

  method Group(edits: seq<TextEdit>) returns (byUri: map<string, seq<Edit>>, order: seq<string>)
    ensures Grouped(edits, byUri, order)
  {
    hide Grouped;
    byUri, order := map[], [];
    NothingGrouped();
    for i := 0 to |edits|
      invariant Grouped(edits[..i], byUri, order)
    {
      var e := edits[i];
      assert edits[..i + 1] == edits[..i] + [e];
      GroupOne(edits[..i], e, byUri, order);
      if e.uri in byUri {
        byUri := byUri[e.uri := byUri[e.uri] + [e.edit]];
      } else {
        byUri := byUri[e.uri := [e.edit]];
        order := order + [e.uri];
      }
    }
    assert edits[..|edits|] == edits;
  }

  class Workspace {
    var files: map<string, string>

    constructor (files: map<string, string>)
      ensures this.files == files
    {
      this.files := files;
    }

    /** Every new text, or nothing when one file is missing or its edits do not fit. */
    method NewTexts(edits: seq<TextEdit>, byUri: map<string, seq<Edit>>, order: seq<string>)
      returns (results: Option<seq<string>>)
      requires Grouped(edits, byUri, order)
      ensures results.Some? <==> forall u :: Applicable(files, edits, u)
      ensures results.Some? ==> |results.value| == |order|
      ensures results.Some? ==>
                forall i | 0 <= i < |order| :: order[i] in files && results.value[i] == NewText(files, edits, order[i])
    {
      hide Fits, Replaced;
      var texts: seq<string> := [];
      for i := 0 to |order|
        invariant |texts| == i
        invariant forall j | 0 <= j < i :: Applicable(files, edits, order[j])
        invariant forall j | 0 <= j < i :: order[j] in files && texts[j] == NewText(files, edits, order[j])
      {
        var uri := order[i];
        assert uri in byUri;
        if uri !in files {
          assert !Applicable(files, edits, uri);
          return None;
        }
        var text := EditText(files[uri], byUri[uri]);
        if text.None? {
          assert !Applicable(files, edits, uri);
          return None;
        }
        texts := texts + [text.value];
      }
      forall u ensures Applicable(files, edits, u) {
        if u in byUri {
          assert u in order;
        }
      }
      return Some(texts);
    }

    method WriteAll(order: seq<string>, texts: seq<string>)
      requires |order| == |texts| && forall i | 0 <= i < |order| :: order[i] in files
      requires forall i, j | 0 <= i < j < |order| :: order[i] != order[j]
      modifies this
      ensures files.Keys == old(files).Keys
      ensures forall i | 0 <= i < |order| :: files[order[i]] == texts[i]
      ensures forall u | u in files && u !in order :: files[u] == old(files)[u]
    {
      for k := 0 to |order|
        invariant files.Keys == old(files).Keys
        invariant forall i | 0 <= i < k :: files[order[i]] == texts[i]
        invariant forall u | u in files && u !in order :: files[u] == old(files)[u]
      {
        files := files[order[k] := texts[k]];
      }
    }

    /** All files get their new texts, or none is touched. */
    method ApplyEdits(edits: seq<TextEdit>) returns (ok: bool)
      modifies this
      ensures ok <==> forall u :: Applicable(old(files), edits, u)
      ensures files.Keys == old(files).Keys
      ensures forall u | u in files :: files[u] == if ok then NewText(old(files), edits, u) else old(files)[u]
    {
      hide Fits, Replaced, EditsOf;
      var byUri, order := Group(edits);
      var results := NewTexts(edits, byUri, order);
      if results.None? {
        return false;
      }
      ghost var before := files;
      WriteAll(order, results.value);
      forall u | u in files ensures files[u] == NewText(before, edits, u) {
        if u !in order {
          assert EditsOf(edits, u) == [];
          NothingReplaced(before[u]);
        }
      }
      return true;
    }
  }
}
