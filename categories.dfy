/**
 * The category list. The file category.txt is seeded with six names when it is missing,
 * read back with `splitlines`, edited in a listbox window (append, replace at an index,
 * delete at an index) and written back with "\n".join, which also refreshes the
 * category dropdown of the product form.
 */
module Categories {
  import opened Wrappers
  import opened Text

  /** The names written to a missing category.txt. */
  const Defaults: seq<string> := ["Electronics", "Clothing", "Books", "Food", "Toys", "Sports"]

  /** What the save handler writes: the names joined by "\n", with no final newline. */
  function SaveText(names: seq<string>): string {
    Join(names, "\n")
  }

  /** What a reader gets back: `read().splitlines()`. */
  function LoadNames(text: string): seq<string> {
    SplitLines(text)
  }

  /** The category file read as a list; a missing file reads as no categories. */
  function ReadNames(file: Option<string>): seq<string> {
    match file
    case None => []
    case Some(text) => LoadNames(text)
  }

  /** No name holds a line break and the last name is not empty. */
  predicate Savable(names: seq<string>) {
    (forall i :: 0 <= i < |names| ==> SingleLine(names[i])) && (names == [] || names[|names| - 1] != "")
  }

  /**
   * Saving and loading again gives back the same names, as long as no name holds a line
   * break and the last name is not empty (a trailing "" is lost by `splitlines`).
   */
  lemma SaveLoad(names: seq<string>)
    requires Savable(names)
    ensures LoadNames(SaveText(names)) == names
  {
    SplitLinesJoin(names);
  }

  /** The seeded file reads back as the six default names. */
  lemma SeedLoads()
    ensures LoadNames(SaveText(Defaults)) == Defaults
  {
    forall i | 0 <= i < |Defaults|
      ensures SingleLine(Defaults[i])
    {
    }
    SaveLoad(Defaults);
  }

  /** `listbox.insert(i, x)`: `x` lands at index `i`, the rest shifts up by one. */
  function Insert(s: seq<string>, i: nat, x: string): (r: seq<string>)
    requires i <= |s|
  {
    s[..i] + [x] + s[i..]
  }

  /** `listbox.delete(i)`: the element at `i` goes, the rest shifts down by one. */
  function Remove(s: seq<string>, i: nat): (r: seq<string>)
    requires i < |s|
  {
    s[..i] + s[i + 1..]
  }

  /** Inserting puts `x` at `i` and keeps every other element, in order. */
  lemma InsertAt(s: seq<string>, i: nat, x: string)
    requires i <= |s|
    ensures |Insert(s, i, x)| == |s| + 1
    ensures Insert(s, i, x)[i] == x
    ensures forall j :: 0 <= j < i ==> Insert(s, i, x)[j] == s[j]
    ensures forall j :: i < j <= |s| ==> Insert(s, i, x)[j] == s[j - 1]
  {
  }

  /** Removing drops exactly the element at `i` and keeps the others, in order. */
  lemma RemoveAt(s: seq<string>, i: nat)
    requires i < |s|
    ensures |Remove(s, i)| == |s| - 1
    ensures forall j :: 0 <= j < i ==> Remove(s, i)[j] == s[j]
    ensures forall j :: i <= j < |s| - 1 ==> Remove(s, i)[j] == s[j + 1]
    ensures multiset(Remove(s, i)) + multiset{s[i]} == multiset(s)
  {
    assert s == s[..i] + [s[i]] + s[i + 1..];
  }

  /** The edit handler deletes then re-inserts at the same index: a replacement in place. */
  lemma ReplaceAt(s: seq<string>, i: nat, x: string)
    requires i < |s|
    ensures Insert(Remove(s, i), i, x) == s[i := x]
  {
  }

  /** The category file, the dropdown of the product form and the listbox of the management window. */
  class CategoryStore {
    /**
     * category.txt, or None once it no longer exists. The handlers here never remove it: None
     * stands for the file being deleted by something outside the program, which `Open` then
     * reads as no categories.
     */
    var file: Option<string>
    /** The values offered by the category dropdown. */
    var dropdown: seq<string>
    /** The names shown in the management window. */
    var listbox: seq<string>

    /** Start-up: seed a missing file with the defaults, then fill the dropdown from the file. */
    constructor(existing: Option<string>)
      ensures file == Some(existing.GetOr(SaveText(Defaults)))
      ensures dropdown == LoadNames(file.value)
      ensures listbox == []
      ensures existing == None ==> dropdown == Defaults
    {
      var text := existing.GetOr(SaveText(Defaults));
      file := Some(text);
      dropdown := LoadNames(text);
      listbox := [];
      SeedLoads();
    }

    /** Opening the management window: read the file and insert its names one by one. */
    method Open()
      modifies this
      ensures listbox == ReadNames(file)
      ensures file == old(file) && dropdown == old(dropdown)
    {
      var names := ReadNames(file);
      listbox := [];
      for i := 0 to |names|
        invariant listbox == names[..i]
        invariant file == old(file) && dropdown == old(dropdown)
      {
        listbox := Insert(listbox, |listbox|, names[i]);
        assert names[..i + 1] == names[..i] + [names[i]];
      }
      assert names[..|names|] == names;
    }

    /** The add handler: a non-empty answer is appended; a cancelled or empty one changes nothing. */
    method Add(answer: Option<string>)
      modifies this
      ensures answer.Some? && answer.value != "" ==> listbox == old(listbox) + [answer.value]
      ensures answer == None || answer.value == "" ==> listbox == old(listbox)
      ensures file == old(file) && dropdown == old(dropdown)
    {
      if answer.Some? && answer.value != "" {
        listbox := Insert(listbox, |listbox|, answer.value);
      }
    }

    /** The edit handler: with a selection and a non-empty answer, the selected name is replaced. */
    method Edit(selection: Option<nat>, answer: Option<string>)
      requires selection.Some? ==> selection.value < |listbox|
      modifies this
      ensures selection.Some? && answer.Some? && answer.value != "" ==>
                listbox == old(listbox)[selection.value := answer.value]
      ensures selection == None || answer == None || answer.value == "" ==> listbox == old(listbox)
      ensures |listbox| == |old(listbox)|
      ensures file == old(file) && dropdown == old(dropdown)
    {
      if selection.Some? {
        var index := selection.value;
        if answer.Some? && answer.value != "" {
          ReplaceAt(listbox, index, answer.value);
          listbox := Remove(listbox, index);
          listbox := Insert(listbox, index, answer.value);
        }
      }
    }

    /** The delete handler: with a selection, exactly the selected name is removed. */
    method Delete(selection: Option<nat>)
      requires selection.Some? ==> selection.value < |listbox|
      modifies this
      ensures selection.Some? ==> listbox == Remove(old(listbox), selection.value)
      ensures selection == None ==> listbox == old(listbox)
      ensures file == old(file) && dropdown == old(dropdown)
    {
      if selection.Some? {
        listbox := Remove(listbox, selection.value);
      }
    }

    /** The save handler: write the listbox to the file and offer it in the dropdown. */
    method Save()
      modifies this
      ensures file == Some(SaveText(listbox))
      ensures dropdown == listbox && listbox == old(listbox)
      ensures Savable(listbox) ==> ReadNames(file) == listbox
    {
      file := Some(SaveText(listbox));
      dropdown := listbox;
      if Savable(listbox) {
        SaveLoad(listbox);
      }
    }
  }
}
