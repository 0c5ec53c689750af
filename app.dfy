/**
 * The product window: products.txt, the files on disk, the image staged by "Add Image"
 * and the rows of the product table, changed by the add, edit, delete, search and load
 * handlers. A row selection is an index into the rows; dialogs and the clock are parameters.
 */
module App {
  import opened Wrappers
  import opened Text
  import opened Codec
  import opened Images
  import opened Store

  /** How a handler ended: it went through, or it stopped with an error and changed nothing. */
  datatype Outcome =
    | Done
      /** No table row was selected. */
    | NoSelection
      /** One of the six required form values was empty. */
    | Incomplete
      /** The selected row has too few values for an index the handler reads (an `IndexError`). */
    | RowTooShort

  class ProductApp {
    /** The contents of products.txt. */
    var productFile: string
    /** The paths of the files that exist. */
    var disk: set<string>
    /** `self.image_path`: the image picked by "Add Image", if any. */
    var staged: Option<string>
    /** The values of the rows of the product table, top to bottom. */
    var rows: seq<seq<string>>

    /** Every row has an id to select it by. */
    predicate Valid()
      reads this
    {
      forall i :: 0 <= i < |rows| ==> |rows[i]| >= 1
    }

    /** Start-up: create an empty products.txt if it is missing, then load the table from it. */
    constructor(existing: Option<string>, files: set<string>)
      ensures productFile == existing.GetOr("")
      ensures disk == files && staged == None
      ensures rows == Loaded(ReadLines(productFile))
      ensures Valid()
    {
      var text := existing.GetOr("");
      var loaded := LoadRows(ReadLines(text));
      productFile := text;
      disk := files;
      staged := None;
      rows := loaded;
    }

    /** "Add Image": a chosen path is staged; a cancelled dialog (the empty path) changes nothing. */
    method StageImage(path: string)
      modifies this
      ensures staged == (if path != "" then Some(path) else old(staged))
      ensures productFile == old(productFile) && disk == old(disk) && rows == old(rows)
    {
      if path != "" {
        staged := Some(path);
      }
    }

    /**
     * "Add Product": with all six values, the staged image is placed, the record is appended to
     * the file with the given time as its date added and an empty last-updated field, the stage
     * is cleared and the record's row is added to the table. Otherwise nothing changes.
     */
    method AddProduct(form: Form, now: string) returns (outcome: Outcome)
      requires Valid()
      modifies this
      ensures Valid()
      ensures outcome == Done <==> Complete(form)
      ensures outcome != Done ==> outcome == Incomplete
      ensures !Complete(form) ==>
                productFile == old(productFile) && disk == old(disk) && staged == old(staged) && rows == old(rows)
      ensures Complete(form) ==>
                var pl := PlaceForAdd(old(staged), old(disk));
                var p := Record(form, now, "", pl.path);
                && productFile == old(productFile) + Encode(p)
                && disk == pl.disk
                && staged == None
                && rows == old(rows) + [Fields(p)]
      ensures Placeholder in old(disk) ==> Placeholder in disk
    {
      if !Complete(form) {
        return Incomplete;
      }
      var pl := PlaceForAdd(staged, disk);
      staged := None;
      var p := Record(form, now, "", pl.path);
      disk := pl.disk;
      productFile := productFile + Encode(p);
      rows := rows + [Fields(p)];
      outcome := Done;
    }

    /**
     * "Edit Product". Without a selection nothing happens. The selected row's date added
     * (index 6) is read before the form is checked, its image (index 8) after; a row too
     * short for either stops the handler. Otherwise the image is placed, every line of the
     * file with the row's id is replaced by the new record, the selected row shows it and
     * the stage is cleared.
     */
    method EditProduct(selection: Option<nat>, form: Form, now: string) returns (outcome: Outcome)
      requires Valid()
      requires selection.Some? ==> selection.value < |rows|
      modifies this
      ensures Valid()
      ensures outcome != Done ==>
                productFile == old(productFile) && disk == old(disk) && staged == old(staged) && rows == old(rows)
      ensures outcome == NoSelection <==> selection == None
      ensures selection.Some? && |old(rows)[selection.value]| < 7 ==> outcome == RowTooShort
      ensures selection.Some? && |old(rows)[selection.value]| >= 7 && !Complete(form) ==> outcome == Incomplete
      ensures selection.Some? && 7 <= |old(rows)[selection.value]| < 9 && Complete(form) ==> outcome == RowTooShort
      ensures selection.Some? && |old(rows)[selection.value]| >= 9 && Complete(form) ==>
                var values := old(rows)[selection.value];
                var pl := PlaceForEdit(values[8], old(staged), old(disk));
                var p := Record(form, values[6], now, pl.path);
                && outcome == Done
                && productFile == Concat(Updated(ReadLines(old(productFile)), values[0], Encode(p)))
                && disk == pl.disk
                && staged == None
                && rows == old(rows)[selection.value := Fields(p)]
      ensures Placeholder in old(disk) ==> Placeholder in disk
    {
      if selection == None {
        return NoSelection;
      }
      var k := selection.value;
      var values := rows[k];
      if |values| < 7 {
        return RowTooShort;
      }
      var dateAdded := values[6];
      if !Complete(form) {
        return Incomplete;
      }
      if |values| < 9 {
        return RowTooShort;
      }
      var pl := PlaceForEdit(values[8], staged, disk);
      staged := None;
      disk := pl.disk;
      var p := Record(form, dateAdded, now, pl.path);
      rows := rows[k := Fields(p)];
      var lines := ReadLines(productFile);
      var written := UpdateLines(lines, values[0], Encode(p));
      productFile := Concat(written);
      outcome := Done;
    }

    /**
     * "Delete Product". Without a selection nothing happens. Otherwise the selected row leaves
     * the table, every line of the file with its id is dropped, and the releasable images of the
     * dropped lines are deleted.
     */
    method DeleteProduct(selection: Option<nat>) returns (outcome: Outcome)
      requires Valid()
      requires selection.Some? ==> selection.value < |rows|
      modifies this
      ensures Valid()
      ensures selection == None ==>
                && outcome == NoSelection
                && productFile == old(productFile) && disk == old(disk) && staged == old(staged) && rows == old(rows)
      ensures selection.Some? ==>
                var k := selection.value;
                var id := old(rows)[k][0];
                && outcome == Done
                && rows == old(rows)[..k] + old(rows)[k + 1..]
                && productFile == Concat(Kept(ReadLines(old(productFile)), id))
                && disk == old(disk) - Freed(ReadLines(old(productFile)), id)
                && staged == old(staged)
      ensures Placeholder in old(disk) ==> Placeholder in disk
    {
      if selection == None {
        return NoSelection;
      }
      var k := selection.value;
      var id := rows[k][0];
      rows := rows[..k] + rows[k + 1..];
      var lines := ReadLines(productFile);
      var kept, after := DeleteLines(lines, id, disk);
      if Placeholder in disk {
        DeleteKeepsImages(lines, id, disk, Placeholder);
      }
      productFile := Concat(kept);
      disk := after;
      outcome := Done;
    }

    /** "Search": the table shows the fields of every line of the file that matches the query. */
    method SearchProduct(query: string)
      requires Valid()
      modifies this
      ensures Valid()
      ensures rows == Found(ReadLines(productFile), query)
      ensures productFile == old(productFile) && disk == old(disk) && staged == old(staged)
    {
      rows := SearchLines(ReadLines(productFile), query);
      FoundRows(ReadLines(productFile), query);
    }

    /** Loading: the table shows the fields of every line of the file. */
    method LoadProducts()
      modifies this
      ensures Valid()
      ensures rows == Loaded(ReadLines(productFile))
      ensures productFile == old(productFile) && disk == old(disk) && staged == old(staged)
    {
      rows := LoadRows(ReadLines(productFile));
    }
  }
}
