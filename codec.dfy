/**
 * The product record and its one-line encoding in products.txt: nine positional
 * fields joined by ',' and ended by '\n'; decoding is `line.strip().split(",")`.
 * Nothing is quoted or escaped, so a field holding ',' does not decode back.
 */
module Codec {
  import opened Text

  const Delimiter: char := ','

  /** One product, its fields in the order they stand on a line. */
  datatype Product = Product(
    id: string,
    name: string,
    price: string,
    description: string,
    stock: string,
    category: string,
    dateAdded: string,
    lastUpdated: string,
    imagePath: string)

  /** The nine positional fields, in file order (also the Treeview row values). */
  function Fields(p: Product): seq<string> {
    [p.id, p.name, p.price, p.description, p.stock, p.category, p.dateAdded, p.lastUpdated, p.imagePath]
  }

  /** The six values the form supplies on add and edit. */
  datatype Form = Form(
    id: string,
    name: string,
    price: string,
    description: string,
    stock: string,
    category: string)

  /** Add and edit go ahead only if none of the six required values is empty. */
  predicate Complete(f: Form) {
    f.id != "" && f.name != "" && f.price != "" && f.description != "" && f.stock != "" && f.category != ""
  }

  /** The record built from the form and the three fields the store fills in itself. */
  function Record(f: Form, dateAdded: string, lastUpdated: string, imagePath: string): Product {
    Product(f.id, f.name, f.price, f.description, f.stock, f.category, dateAdded, lastUpdated, imagePath)
  }

  /** The line written for a record: the nine fields separated by ',' and a newline. */
  function Encode(p: Product): string {
    Join(Fields(p), [Delimiter]) + "\n"
  }

  /** The fields of a line: `line.strip().split(",")`; never empty. */
  function Decode(line: string): (data: seq<string>)
    ensures |data| >= 1
  {
    Split(Strip(line), Delimiter)
  }

  /** Rejoining the fields of a line gives the stripped line back. */
  lemma DecodeRejoins(line: string)
    ensures Join(Decode(line), [Delimiter]) == Strip(line)
  {
    JoinSplit(Strip(line), Delimiter);
  }

  /** `data[0]`: the id the rewrites match on. */
  function FirstField(line: string): string {
    Decode(line)[0]
  }

  /** `data[-1]`: the image path the delete rewrite releases. */
  function LastField(line: string): string {
    var data := Decode(line);
    data[|data| - 1]
  }

  /** No field holds the delimiter. */
  predicate Delimitable(p: Product) {
    forall i :: 0 <= i < |Fields(p)| ==> Delimiter !in Fields(p)[i]
  }

  /** No field holds a newline. */
  predicate NewlineFree(p: Product) {
    forall i :: 0 <= i < |Fields(p)| ==> '\n' !in Fields(p)[i]
  }

  /** `strip()` cannot reach into the line: the id does not start, the image path does not end, with whitespace. */
  predicate EdgesUnpadded(p: Product) {
    (p.id == [] || !IsSpace(p.id[0])) && (p.imagePath == [] || !IsSpace(p.imagePath[|p.imagePath| - 1]))
  }

  /** Stripping a written line removes exactly its newline. */
  lemma StripEncoded(p: Product)
    requires EdgesUnpadded(p)
    ensures Strip(Encode(p)) == Join(Fields(p), [Delimiter])
  {
    var f := Fields(p);
    var j := Join(f, [Delimiter]);
    JoinSnoc(f, [Delimiter]);
    assert j == p.id + [Delimiter] + Join(f[1..], [Delimiter]);
    assert j == Join(f[..8], [Delimiter]) + [Delimiter] + p.imagePath;
    assert j[0] == (if p.id == [] then Delimiter else p.id[0]);
    assert j[|j| - 1] == (if p.imagePath == [] then Delimiter else p.imagePath[|p.imagePath| - 1]);
    var e := j + "\n";
    assert StripLeft(e) == e;
    assert e[..|e| - 1] == j;
    assert StripRight(e) == StripRight(j);
    assert StripRight(j) == j;
  }

  /** Decoding a written line gives back the nine fields it was written from. */
  lemma RoundTrip(p: Product)
    requires Delimitable(p) && EdgesUnpadded(p)
    ensures Decode(Encode(p)) == Fields(p)
  {
    StripEncoded(p);
    SplitJoin(Fields(p), Delimiter);
  }

  /** The two fields a rewrite reads back, the id and the image path, hold no delimiter. */
  predicate EndsDelimitable(p: Product) {
    Delimiter !in p.id && Delimiter !in p.imagePath
  }

  /**
   * A written line's first field is the record's id and its last field the image path,
   * whatever the fields in between hold.
   */
  lemma FirstFieldEncoded(p: Product)
    requires EndsDelimitable(p) && EdgesUnpadded(p)
    ensures FirstField(Encode(p)) == p.id
    ensures LastField(Encode(p)) == p.imagePath
  {
    StripEncoded(p);
    var f := Fields(p);
    assert Join(f, [Delimiter]) == p.id + [Delimiter] + Join(f[1..], [Delimiter]);
    SplitAfter(p.id, Join(f[1..], [Delimiter]), Delimiter);
    JoinSnoc(f, [Delimiter]);
    SplitBefore(Join(f[..8], [Delimiter]), p.imagePath, Delimiter);
  }

  /** A record without newlines is written as exactly one newline-terminated line. */
  lemma EncodedIsLine(p: Product)
    requires NewlineFree(p)
    ensures IsLine(Encode(p)) && EndsLine(Encode(p))
  {
    JoinWithout(Fields(p), [Delimiter], '\n');
    var j := Join(Fields(p), [Delimiter]);
    assert forall k :: 0 <= k < |j| ==> j[k] != '\n';
  }
}
