/**
 * The file rewrites of the product store, over the lines `readlines()` returns:
 * the update rewrite (every line whose first field is the old id is replaced),
 * the delete rewrite (every such line is dropped and its image released), the
 * search scan and the plain load. Each loop is proved against a reference function.
 */
module Store {
  import opened Text
  import opened Codec
  import opened Images

  // ---------------------------------------------------------------- update

  /** What the update rewrite writes in place of `line`. */
  function Rewrite(line: string, oldId: string, replacement: string): string {
    if FirstField(line) == oldId then replacement else line
  }

  /** The update rewrite of a whole file, line by line. */
  function Updated(lines: seq<string>, oldId: string, replacement: string): (out: seq<string>)
    ensures |out| == |lines|
    decreases |lines|
  {
    if lines == [] then []
    else [Rewrite(lines[0], oldId, replacement)] + Updated(lines[1..], oldId, replacement)
  }

  /**
   * The update rewrite keeps length and order: each line whose first field is the old id
   * becomes the replacement, every other line is copied unchanged.
   */
  lemma {:induction false} UpdatedAt(lines: seq<string>, oldId: string, replacement: string)
    ensures |Updated(lines, oldId, replacement)| == |lines|
    ensures forall i :: 0 <= i < |lines| ==>
              Updated(lines, oldId, replacement)[i]
              == (if FirstField(lines[i]) == oldId then replacement else lines[i])
    decreases |lines|
  {
    if lines != [] {
      UpdatedAt(lines[1..], oldId, replacement);
      var u := Updated(lines, oldId, replacement);
      assert forall i :: 1 <= i < |lines| ==> u[i] == Updated(lines[1..], oldId, replacement)[i - 1];
    }
  }

  /** The loop of the edit handler: reads each line, writes the replacement or the line itself. */
  method UpdateLines(lines: seq<string>, oldId: string, replacement: string) returns (out: seq<string>)
    ensures out == Updated(lines, oldId, replacement)
  {
    out := [];
    for i := 0 to |lines|
      invariant |out| == i
      invariant forall k :: 0 <= k < i ==> out[k] == Rewrite(lines[k], oldId, replacement)
    {
      var data := Decode(lines[i]);
      if data[0] == oldId {
        out := out + [replacement];
      } else {
        out := out + [lines[i]];
      }
    }
    UpdatedAt(lines, oldId, replacement);
  }

  /** When the replacement keeps the id, rewriting a second time changes nothing more. */
  lemma UpdatedTwice(lines: seq<string>, oldId: string, replacement: string)
    requires FirstField(replacement) == oldId
    ensures Updated(Updated(lines, oldId, replacement), oldId, replacement) == Updated(lines, oldId, replacement)
  {
    var once := Updated(lines, oldId, replacement);
    UpdatedAt(lines, oldId, replacement);
    UpdatedAt(once, oldId, replacement);
  }

  /** Duplicate ids are all rewritten: two lines with the old id are both replaced, not only the first. */
  lemma UpdatedReplacesDuplicates(a: string, b: string, oldId: string, replacement: string)
    requires FirstField(a) == oldId && FirstField(b) == oldId
    ensures Updated([a, b], oldId, replacement) == [replacement, replacement]
  {
    UpdatedAt([a, b], oldId, replacement);
  }

  /** When the replacement carries another id, no line with the old id is left. */
  lemma UpdatedDropsOldId(lines: seq<string>, oldId: string, replacement: string)
    requires FirstField(replacement) != oldId
    ensures forall i :: 0 <= i < |lines| ==> FirstField(Updated(lines, oldId, replacement)[i]) != oldId
  {
    UpdatedAt(lines, oldId, replacement);
  }

  /** A single-line replacement keeps the file in the shape `readlines` returns. */
  lemma UpdatedShape(lines: seq<string>, oldId: string, replacement: string)
    requires LinesShape(lines)
    requires IsLine(replacement) && EndsLine(replacement)
    ensures LinesShape(Updated(lines, oldId, replacement))
  {
    UpdatedAt(lines, oldId, replacement);
  }

  // ---------------------------------------------------------------- delete

  /** The lines the delete rewrite writes back: those whose first field is not `id`, in order. */
  function Kept(lines: seq<string>, id: string): seq<string>
    decreases |lines|
  {
    if lines == [] then []
    else
      var last := lines[|lines| - 1];
      Kept(lines[..|lines| - 1], id) + (if FirstField(last) != id then [last] else [])
  }

  /** The lines the delete rewrite drops: those whose first field is `id`, in order. */
  function Removed(lines: seq<string>, id: string): seq<string>
    decreases |lines|
  {
    if lines == [] then []
    else
      var last := lines[|lines| - 1];
      Removed(lines[..|lines| - 1], id) + (if FirstField(last) == id then [last] else [])
  }

  /** The image files the delete rewrite may delete: the releasable last fields of the dropped lines. */
  function Freed(lines: seq<string>, id: string): set<string>
    decreases |lines|
  {
    if lines == [] then {}
    else
      var last := lines[|lines| - 1];
      Freed(lines[..|lines| - 1], id) + (if FirstField(last) == id && Releasable(LastField(last)) then {LastField(last)} else {})
  }

  /** An image is freed exactly when a dropped line names it and it is releasable. */
  lemma {:induction false} FreedNamed(lines: seq<string>, id: string)
    ensures forall q :: q in Freed(lines, id) <==> Releasable(q) && exists l :: l in Removed(lines, id) && LastField(l) == q
    decreases |lines|
  {
    if lines != [] {
      var init := lines[..|lines| - 1];
      var last := lines[|lines| - 1];
      FreedNamed(init, id);
      var r := Removed(lines, id);
      assert r == Removed(init, id) + (if FirstField(last) == id then [last] else []);
      forall q
        ensures q in Freed(lines, id) <==> Releasable(q) && exists l :: l in r && LastField(l) == q
      {
        if q in Freed(lines, id) && !(q in Freed(init, id)) {
          assert last in r && LastField(last) == q;
        }
        if Releasable(q) && (exists l :: l in r && LastField(l) == q) {
          var l :| l in r && LastField(l) == q;
          if l !in Removed(init, id) {
            assert l == last;
          }
        }
      }
    }
  }

  /**
   * The loop of the delete handler: writes back every line with another id and, for each
   * dropped line, deletes its image if it is releasable and exists.
   */
  method DeleteLines(lines: seq<string>, id: string, disk: set<string>) returns (kept: seq<string>, after: set<string>)
    ensures kept == Kept(lines, id)
    ensures after == disk - Freed(lines, id)
  {
    kept, after := [], disk;
    for i := 0 to |lines|
      invariant kept == Kept(lines[..i], id)
      invariant after == disk - Freed(lines[..i], id)
    {
      var line := lines[i];
      assert lines[..i + 1][..i] == lines[..i];
      var data := Decode(line);
      if data[0] != id {
        kept := kept + [line];
      } else {
        var image := data[|data| - 1];
        if image != "" && image != Placeholder {
          if image in after {
            after := after - {image};
          }
        }
      }
    }
    assert lines[..|lines|] == lines;
  }

  /** Exactly the lines with another id survive a delete. */
  lemma {:induction false} KeptMembers(lines: seq<string>, id: string)
    ensures forall l :: l in Kept(lines, id) <==> l in lines && FirstField(l) != id
    decreases |lines|
  {
    if lines != [] {
      var init := lines[..|lines| - 1];
      KeptMembers(init, id);
      assert lines == init + [lines[|lines| - 1]];
    }
  }

  /** A delete splits the file into what it keeps and what it drops, losing and duplicating nothing. */
  lemma {:induction false} DeletePartition(lines: seq<string>, id: string)
    ensures multiset(Kept(lines, id)) + multiset(Removed(lines, id)) == multiset(lines)
    decreases |lines|
  {
    if lines != [] {
      var init := lines[..|lines| - 1];
      var last := lines[|lines| - 1];
      DeletePartition(init, id);
      assert lines == init + [last];
      assert multiset(lines) == multiset(init) + multiset{last};
      if FirstField(last) == id {
        assert multiset(Removed(lines, id)) == multiset(Removed(init, id)) + multiset{last};
      } else {
        assert multiset(Kept(lines, id)) == multiset(Kept(init, id)) + multiset{last};
      }
    }
  }

  /** Kept and dropped lines together are as many as the file has. */
  lemma DeleteCounts(lines: seq<string>, id: string)
    ensures |Kept(lines, id)| + |Removed(lines, id)| == |lines|
  {
    DeletePartition(lines, id);
    assert |multiset(Kept(lines, id)) + multiset(Removed(lines, id))| == |multiset(lines)|;
  }

  /** Deleting an id no line carries writes the file back unchanged. */
  lemma {:induction false} KeptAbsent(lines: seq<string>, id: string)
    requires forall i :: 0 <= i < |lines| ==> FirstField(lines[i]) != id
    ensures Kept(lines, id) == lines
    decreases |lines|
  {
    if lines != [] {
      var init := lines[..|lines| - 1];
      KeptAbsent(init, id);
      assert lines == init + [lines[|lines| - 1]];
    }
  }

  /** Dropping lines keeps the file in the shape `readlines` returns. */
  lemma {:induction false} KeptShape(lines: seq<string>, id: string)
    requires LinesShape(lines)
    ensures LinesShape(Kept(lines, id))
    decreases |lines|
  {
    if lines != [] {
      var init := lines[..|lines| - 1];
      var last := lines[|lines| - 1];
      assert LinesShape(init) by {
        assert forall i :: 0 <= i < |init| ==> init[i] == lines[i];
      }
      KeptShape(init, id);
      KeptMembers(init, id);
      var k := Kept(init, id);
      assert forall i :: 0 <= i < |k| ==> k[i] in init;
      assert forall l :: l in init ==> IsLine(l) && EndsLine(l) by {
        forall l | l in init ensures IsLine(l) && EndsLine(l) {
          var j :| 0 <= j < |init| && init[j] == l;
          assert lines[j] == l;
        }
      }
    }
  }

  /** The placeholder, and every image no dropped line names, survives a delete. */
  lemma DeleteKeepsImages(lines: seq<string>, id: string, disk: set<string>, p: string)
    requires p in disk
    requires p == Placeholder || forall l :: l in Removed(lines, id) ==> LastField(l) != p
    ensures p in disk - Freed(lines, id)
  {
    FreedNamed(lines, id);
  }

  // ---------------------------------------------------------------- search

  /** The search test of one line: the lowered query occurs in the lowered, rejoined fields. */
  predicate Matches(line: string, query: string) {
    Contains(Lower(Join(Decode(line), [Delimiter])), Lower(query))
  }

  /** The rows a search shows: the fields of each matching line, in file order. */
  function Found(lines: seq<string>, query: string): seq<seq<string>>
    decreases |lines|
  {
    if lines == [] then []
    else
      var last := lines[|lines| - 1];
      Found(lines[..|lines| - 1], query) + (if Matches(last, query) then [Decode(last)] else [])
  }

  /** The loop of the search handler, over the file read afresh. */
  method SearchLines(lines: seq<string>, query: string) returns (rows: seq<seq<string>>)
    ensures rows == Found(lines, query)
  {
    var q := Lower(query);
    rows := [];
    for i := 0 to |lines|
      invariant rows == Found(lines[..i], query)
    {
      assert lines[..i + 1][..i] == lines[..i];
      var data := Decode(lines[i]);
      if Contains(Lower(Join(data, [Delimiter])), q) {
        rows := rows + [data];
      }
    }
    assert lines[..|lines|] == lines;
  }

  /** A row is shown by a search exactly when it is the fields of some matching line of the file. */
  lemma {:induction false} FoundMembers(lines: seq<string>, query: string)
    ensures forall r :: r in Found(lines, query) <==> exists l :: l in lines && Matches(l, query) && r == Decode(l)
    decreases |lines|
  {
    if lines != [] {
      var init := lines[..|lines| - 1];
      var last := lines[|lines| - 1];
      FoundMembers(init, query);
      assert lines == init + [last];
      forall r
        ensures r in Found(lines, query) <==> exists l :: l in lines && Matches(l, query) && r == Decode(l)
      {
        if r in Found(lines, query) && r !in Found(init, query) {
          assert last in lines && Matches(last, query) && r == Decode(last);
        }
        if exists l :: l in lines && Matches(l, query) && r == Decode(l) {
          var l :| l in lines && Matches(l, query) && r == Decode(l);
          if l !in init {
            assert l == last;
          }
        }
      }
    }
  }

  /** Every row a search shows has at least one value. */
  lemma FoundRows(lines: seq<string>, query: string)
    ensures forall i :: 0 <= i < |Found(lines, query)| ==> |Found(lines, query)[i]| >= 1
  {
    FoundMembers(lines, query);
    var f := Found(lines, query);
    forall i | 0 <= i < |f|
      ensures |f[i]| >= 1
    {
      assert f[i] in f;
    }
  }

  /** The rows the table shows when the whole file is loaded. */
  function Loaded(lines: seq<string>): (rows: seq<seq<string>>)
    ensures |rows| == |lines|
  {
    seq(|lines|, i requires 0 <= i < |lines| => Decode(lines[i]))
  }

  /** The empty query shows every line: a search for "" is a full load. */
  lemma {:induction false} FoundEverything(lines: seq<string>)
    ensures Found(lines, "") == Loaded(lines)
    decreases |lines|
  {
    if lines != [] {
      var init := lines[..|lines| - 1];
      FoundEverything(init);
      assert [] <= Lower(Join(Decode(lines[|lines| - 1]), [Delimiter]));
      assert Loaded(lines) == Loaded(init) + [Decode(lines[|lines| - 1])];
    }
  }

  /** Matching looks at the stripped line itself, because rejoining the split is the identity. */
  lemma MatchesStripped(line: string, query: string)
    ensures Matches(line, query) <==> Contains(Lower(Strip(line)), Lower(query))
  {
    DecodeRejoins(line);
  }

  /**
   * A query may run across a field boundary: two adjacent fields of a written record, with
   * the delimiter between them, are found in any letter case.
   */
  lemma AdjacentFieldsMatch(p: Product, k: nat, query: string)
    requires EdgesUnpadded(p)
    requires k + 1 < |Fields(p)|
    requires Lower(query) == Lower(Fields(p)[k] + [Delimiter] + Fields(p)[k + 1])
    ensures Matches(Encode(p), query)
  {
    StripEncoded(p);
    DecodeRejoins(Encode(p));
    JoinContainsAdjacent(Fields(p), [Delimiter], k);
    ContainsLower(Join(Fields(p), [Delimiter]), Fields(p)[k] + [Delimiter] + Fields(p)[k + 1]);
  }

  /** The load loop: the fields of every line, in file order. */
  method LoadRows(lines: seq<string>) returns (rows: seq<seq<string>>)
    ensures rows == Loaded(lines)
  {
    rows := [];
    for i := 0 to |lines|
      invariant |rows| == i
      invariant forall k :: 0 <= k < i ==> rows[k] == Decode(lines[k])
    {
      rows := rows + [Decode(lines[i])];
    }
  }

  // ---------------------------------------------------------------- the file read back

  /** A record appended to a newline-terminated file is read back as one more line. */
  lemma AppendReadsBack(file: string, p: Product)
    requires file == "" || EndsLine(file)
    requires NewlineFree(p)
    ensures ReadLines(file + Encode(p)) == ReadLines(file) + [Encode(p)]
  {
    EncodedIsLine(p);
    ReadLinesAppend(file, Encode(p));
    ReadLinesLine(Encode(p));
  }

  /** Deleting the id of a record just added, when no other line carried it, restores the file's lines. */
  lemma AddThenDelete(file: string, p: Product)
    requires file == "" || EndsLine(file)
    requires NewlineFree(p) && EndsDelimitable(p) && EdgesUnpadded(p)
    requires forall i :: 0 <= i < |ReadLines(file)| ==> FirstField(ReadLines(file)[i]) != p.id
    ensures Kept(ReadLines(file + Encode(p)), p.id) == ReadLines(file)
  {
    AppendReadsBack(file, p);
    FirstFieldEncoded(p);
    var ls := ReadLines(file);
    assert (ls + [Encode(p)])[..|ls|] == ls;
    KeptAbsent(ls, p.id);
  }

  /** After an edit the file reads back as exactly the update rewrite of its old lines. */
  lemma UpdateReadsBack(file: string, oldId: string, p: Product)
    requires NewlineFree(p)
    ensures ReadLines(Concat(Updated(ReadLines(file), oldId, Encode(p)))) == Updated(ReadLines(file), oldId, Encode(p))
  {
    ReadLinesShape(file);
    EncodedIsLine(p);
    UpdatedShape(ReadLines(file), oldId, Encode(p));
    ReadLinesConcat(Updated(ReadLines(file), oldId, Encode(p)));
  }

  /** After a delete the file reads back as exactly the kept lines, none of them with the id. */
  lemma DeleteReadsBack(file: string, id: string)
    ensures ReadLines(Concat(Kept(ReadLines(file), id))) == Kept(ReadLines(file), id)
    ensures forall l :: l in ReadLines(Concat(Kept(ReadLines(file), id))) ==> FirstField(l) != id
  {
    ReadLinesShape(file);
    KeptShape(ReadLines(file), id);
    ReadLinesConcat(Kept(ReadLines(file), id));
    KeptMembers(ReadLines(file), id);
  }
}
