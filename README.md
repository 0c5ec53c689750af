# Product management store, modelled in Dafny

This project models the record store inside a one-window tkinter product manager
(`Product_management_system.py`), taken out of its widgets. Products are kept in
`products.txt`, one line per product as long as no field holds a newline. Each line holds
nine fields separated by commas: id, name, price, description, stock, category, date added,
last updated and image path.
Categories are kept in `category.txt`, one name per line. Product images are copied into
`images/`. The shared placeholder `images/empty_image.jpg` is never deleted.

The modules follow the program's layers:

- `Wrappers`: `Option`, for an attribute that may be absent or a dialog that may be cancelled.
- `Text`: the Python string primitives the program uses.
  - `str.isspace`, `strip`, `split(",")` and `",".join`.
  - ASCII `lower`, substring `in` and `splitlines`.
  - `readlines` over a file held as one string.
- `Codec`: the `Product` record and the form's six values.
  - The validation guard.
  - The line encoding: fields joined by `,` plus `\n`.
  - The decoding `line.strip().split(",")` and the round trip between the two.
- `Images`: image-path decisions, with the disk as the set of paths that exist.
  - `os.path.basename`; release (delete unless empty or the placeholder; a missing file is no error).
  - Adoption (copy into `images/`) and the add and edit placements.
- `Store`: the handlers' loops over the lines of `products.txt`.
  - The update rewrite, the delete rewrite (which also releases images), the search scan and the load.
  - Each loop is a method proved equal to a reference function, and lemmas about those functions state what the rewrites promise.
- `Categories`: the category file.
  - The default seed, save as `"\n".join` and load as `splitlines`.
  - A `CategoryStore` class holding the file, the form's dropdown and the management window's listbox, with the add, edit, delete and save handlers.
- `App`: a `ProductApp` class.
  - Its fields are the products file, the disk, the staged image (`self.image_path`) and the table rows.
  - Its methods are the start-up and the "Add Image", add, edit, delete, search and load handlers.

Two behaviours of the code to note:

- The edit rewrite replaces *every* line whose first field is the edited id, not only the
  first such line (Product_management_system.py:258-261).
- The category add and edit handlers ignore an empty or cancelled answer, so a blank name is
  never inserted (Product_management_system.py:423, :432).

A description holding a comma decodes into more than nine values. The table row then has
its date added and image path at shifted positions. The edit handler reads positions 6 and
8 of the row all the same, and the model does exactly that.

A description holding a newline is written unchanged, because the description box has
several rows and nothing removes the newline. Such a record occupies two or more lines of
the file, and `readlines` then returns each part as a line of its own. For example,
`7,S,1,a\nb,5,C,d,,i/s\n` is read back as `7,S,1,a\n` and `b,5,C,d,,i/s\n`. Deleting id `7`
then drops only the first part and releases `a` as its image, while the second part stays as
a record with id `b`. The model encodes the newline as it is and reproduces this. The
read-back lemmas hold only for records without newlines.

## Model

| member | source | states |
|---|---|---|
| Text.Strip | Product_management_system.py:259 | `str.strip()`: drops leading and trailing characters of Python's `isspace` set |
| Text.Join | Product_management_system.py:376 | `sep.join(parts)`: the pieces with the separator between each two |
| Text.Lower | Product_management_system.py:366 | `str.lower()` on ASCII letters, every other character kept |
| Text.Contains | Product_management_system.py:376 | `q in s`: `q` occurs in `s` as a contiguous substring |
| Text.SplitLines | Product_management_system.py:404 | `str.splitlines()`: pieces between line breaks of Python's set, `\r\n` counted once, no trailing empty piece |
| Text.Concat | Product_management_system.py:263 | writing lines one after another: their concatenation |
| Text.StripUnpads | Product_management_system.py:259 | `strip()` leaves no whitespace at either end, never lengthens, and is the identity exactly on strings unpadded at both ends |
| Text.StripLeftSuffix | Product_management_system.py:259 | the left strip keeps the longest suffix not starting with whitespace; everything dropped is whitespace |
| Text.StripRightPrefix | Product_management_system.py:259 | the right strip keeps the longest prefix not ending with whitespace; everything dropped is whitespace |
| Text.Split | Product_management_system.py:259 | `split(",")` always returns at least one piece, so `data[0]` and `data[-1]` exist |
| Text.SplitPieces | Product_management_system.py:259 | no piece of a split holds the separator |
| Text.JoinSplit | Product_management_system.py:376 | joining the pieces of a split with the separator gives the string back |
| Text.SplitJoin | Product_management_system.py:188 | splitting a join of separator-free pieces gives the pieces back |
| Text.JoinWithout | Product_management_system.py:188 | a join of pieces free of a character, with a separator free of it, is free of it |
| Text.JoinContainsAdjacent | Product_management_system.py:376 | a join contains every two adjacent pieces with the separator between them |
| Text.ContainsLower | Product_management_system.py:366-376 | a substring stays a substring after lowering both sides |
| Text.SplitLinesJoin | Product_management_system.py:404-412 | `splitlines` undoes `"\n".join` for names without line breaks whose last name is not empty |
| Text.ReadLines | Product_management_system.py:254-255 | `readlines` loses nothing: its lines concatenate back to the file |
| Text.ReadLinesShape | Product_management_system.py:254-255 | every line `readlines` returns holds one line break at most, at its end, and only the last may lack it |
| Text.ReadLinesAppend | Product_management_system.py:187-188 | appending to a file ending in a newline appends the lines of what was written |
| Text.ReadLinesConcat | Product_management_system.py:257-263 | writing back lines of the `readlines` shape and reading again gives the same lines |
| Codec.Encode | Product_management_system.py:188 | the nine fields joined by `,` and ended by `\n` |
| Codec.Complete | Product_management_system.py:170 | the six form values id, name, price, description, stock and category are all non-empty |
| Codec.Record | Product_management_system.py:261 | the record from the six form values, a date added, a last-updated value and an image path, in file order |
| Codec.Fields | Product_management_system.py:261 | the nine values of a record in file order, as written and as shown in the table row |
| Codec.FirstField | Product_management_system.py:260 | `data[0]` of a decoded line, the id a rewrite matches on |
| Codec.LastField | Product_management_system.py:296 | `data[-1]` of a decoded line, the image path a delete releases |
| Codec.Decode | Product_management_system.py:259 | decoding a line gives at least one field |
| Codec.DecodeRejoins | Product_management_system.py:375-376 | rejoining the decoded fields with `,` gives the stripped line |
| Codec.StripEncoded | Product_management_system.py:259-261 | stripping a written line removes exactly its newline when the id does not start and the image path does not end with whitespace |
| Codec.RoundTrip | Product_management_system.py:259-261 | decoding a written line gives back its nine fields when no field holds a comma and the outer edges are unpadded |
| Codec.FirstFieldEncoded | Product_management_system.py:259-261 | the first field of a written line is the record's id and its last field the image path, when those two hold no comma and the outer edges are unpadded, whatever the other fields hold |
| Codec.EncodedIsLine | Product_management_system.py:188 | a record without newlines is written as exactly one newline-terminated line |
| Images.ManagedPath | Product_management_system.py:240 | `os.path.join("images", os.path.basename(src))` |
| Images.Releasable | Product_management_system.py:297 | an image path that a release may delete: non-empty and not the placeholder |
| Images.Basename | Product_management_system.py:236 | the base name is the suffix after the last `/`, holds no `/`, and is the whole path when there is none |
| Images.Release | Product_management_system.py:297-299 | a release deletes the path only if it is non-empty, not the placeholder and existing; nothing else is deleted |
| Images.ReleaseTwice | Product_management_system.py:297-299 | releasing twice deletes nothing more than releasing once |
| Images.Adopt | Product_management_system.py:235-242 | an existing file is copied to `images/` plus its base name, and the record points at the copy; a missing file keeps the raw path and copies nothing |
| Images.PlaceForAdd | Product_management_system.py:171-185 | with nothing staged the image is `""`; a staged existing file is adopted; a staged missing file keeps its raw path; no file is deleted |
| Images.PlaceForEdit | Product_management_system.py:223-248 | with nothing staged the old path and the disk stay; otherwise the old image is released (never the placeholder) and the staged one adopted; no other path changes; a staged file that is missing once the old image is released (missing before, or deleted as the old image itself) copies nothing, and the record keeps the raw staged path |
| Store.Rewrite | Product_management_system.py:260-263 | the new line when the line's first field is the old id, the line itself otherwise |
| Store.Updated | Product_management_system.py:257-263 | the update rewrite keeps the number of lines |
| Store.UpdatedAt | Product_management_system.py:257-263 | each line whose first field is the old id becomes the new line; every other line is copied unchanged, in place |
| Store.UpdateLines | Product_management_system.py:254-263 | the edit loop writes exactly the update rewrite of the lines read |
| Store.UpdatedTwice | Product_management_system.py:257-263 | when the new line keeps the id, rewriting again changes nothing |
| Store.UpdatedDropsOldId | Product_management_system.py:257-263 | when the new line has another id, no line with the old id is left |
| Store.UpdatedShape | Product_management_system.py:257-263 | a one-line replacement keeps the file in the `readlines` shape |
| Store.UpdatedReplacesDuplicates | Product_management_system.py:258-261 | two lines with the edited id are both replaced |
| Store.Kept | Product_management_system.py:292-293 | the lines whose first field is not the id, in file order |
| Store.Removed | Product_management_system.py:292-296 | the lines whose first field is the id, in file order |
| Store.Freed | Product_management_system.py:296-299 | the releasable last fields of the removed lines |
| Store.DeleteLines | Product_management_system.py:286-299 | the delete loop writes exactly the kept lines and deletes exactly the freed images |
| Store.FreedNamed | Product_management_system.py:296-299 | an image is deleted exactly when it is releasable and the last field of a dropped line |
| Store.KeptMembers | Product_management_system.py:290-293 | a line survives exactly when it was in the file and its first field is not the id |
| Store.DeletePartition | Product_management_system.py:290-294 | kept and dropped lines together are the file's lines, none lost or duplicated |
| Store.DeleteCounts | Product_management_system.py:290-294 | kept and dropped lines together are as many as the file's lines |
| Store.KeptAbsent | Product_management_system.py:290-293 | deleting an id no line carries leaves the lines unchanged |
| Store.KeptShape | Product_management_system.py:290-293 | dropping lines keeps the file in the `readlines` shape |
| Store.DeleteKeepsImages | Product_management_system.py:297 | the placeholder, and every existing image no dropped line names, survives a delete |
| Store.Matches | Product_management_system.py:376 | the lowered query occurs in the lowered, rejoined fields of the line |
| Store.Found | Product_management_system.py:374-377 | the fields of the matching lines, in file order |
| Store.SearchLines | Product_management_system.py:365-377 | the search loop shows exactly the fields of the matching lines, in file order |
| Store.FoundMembers | Product_management_system.py:374-377 | a row is shown exactly when it is the fields of a line of the file that matches the query |
| Store.FoundRows | Product_management_system.py:375-377 | every row a search shows has a first value |
| Store.MatchesStripped | Product_management_system.py:375-376 | a line matches exactly when its lowered stripped text contains the lowered query |
| Store.AdjacentFieldsMatch | Product_management_system.py:376 | a query spanning two adjacent fields and the comma between them matches, in any letter case |
| Store.FoundEverything | Product_management_system.py:376 | the empty query shows every line, as a full load does |
| Store.Loaded | Product_management_system.py:386-388 | the load shows one row per line |
| Store.LoadRows | Product_management_system.py:379-388 | the load loop shows exactly the fields of every line, in order |
| Store.AppendReadsBack | Product_management_system.py:187-188 | after an add, the file reads back as its old lines plus the new one, when no field holds a newline and the file is empty or ends with one |
| Store.AddThenDelete | Product_management_system.py:286-293 | deleting a just-added id that no other line carried restores the old lines, even when the other fields of the record hold commas; this needs no field to hold a newline, the file to be empty or to end with one, and the id and image path to hold no comma and no outer whitespace |
| Store.UpdateReadsBack | Product_management_system.py:254-263 | after an edit, the file reads back as exactly the rewritten lines, when no field of the new record holds a newline |
| Store.DeleteReadsBack | Product_management_system.py:286-293 | after a delete, the file reads back as exactly the kept lines, none with the id |
| Categories.Defaults | Product_management_system.py:18 | the six seed names Electronics, Clothing, Books, Food, Toys and Sports, in that order |
| Categories.SaveText | Product_management_system.py:412 | the names joined by `\n`, with no final newline |
| Categories.LoadNames | Product_management_system.py:404 | the names read back: `splitlines` of the file |
| Categories.ReadNames | Product_management_system.py:402-407 | the file's names, or none when the file is missing |
| Categories.Insert | Product_management_system.py:424 | `listbox.insert(i, x)`: `x` placed before the element at `i` |
| Categories.Remove | Product_management_system.py:440 | `listbox.delete(i)`: the list without its element at `i` |
| Categories.SaveLoad | Product_management_system.py:404-412 | saving and then loading gives back the same names, for names without line breaks and a non-empty last name |
| Categories.SeedLoads | Product_management_system.py:18-20 | the seeded file reads back as the six defaults |
| Categories.InsertAt | Product_management_system.py:434 | a listbox insert places the name at the index and shifts the rest up by one |
| Categories.RemoveAt | Product_management_system.py:440 | a listbox delete drops exactly the element at the index and keeps the rest in order |
| Categories.ReplaceAt | Product_management_system.py:433-434 | deleting and then inserting at the same index replaces that one element |
| Categories.CategoryStore.constructor | Product_management_system.py:16-20 | a missing file is seeded with the defaults, and the dropdown offers the file's names |
| Categories.CategoryStore.Open | Product_management_system.py:446-448 | the listbox holds the file's names, or none when the file is missing |
| Categories.CategoryStore.Add | Product_management_system.py:421-424 | a non-empty answer is appended; an empty or cancelled one changes nothing |
| Categories.CategoryStore.Edit | Product_management_system.py:426-434 | a selection and a non-empty answer replace the selected name only; otherwise nothing changes |
| Categories.CategoryStore.Delete | Product_management_system.py:436-440 | a selection removes exactly the selected name |
| Categories.CategoryStore.Save | Product_management_system.py:409-415 | the file becomes the names joined by newlines and the dropdown offers them; the file reads back as the names when no name holds a line break and the last name is not empty |
| App.ProductApp.constructor | Product_management_system.py:13-15 | a missing products file starts empty, and the table shows the file's lines |
| App.ProductApp.StageImage | Product_management_system.py:342-348 | a chosen path is staged; a cancelled dialog changes nothing |
| App.ProductApp.AddProduct | Product_management_system.py:160-196 | without all six values nothing changes; otherwise the record is appended with an empty last-updated field, the image is placed, the stage is cleared and one row is added |
| App.ProductApp.EditProduct | Product_management_system.py:198-263 | the failures come in the source's order and change nothing; otherwise the record keeps the row's date added, every matching line is rewritten, only the selected row changes and the stage is cleared |
| App.ProductApp.DeleteProduct | Product_management_system.py:272-299 | the selected row leaves the table, every line with its id is dropped, their releasable images are deleted and the placeholder survives |
| App.ProductApp.SearchProduct | Product_management_system.py:365-377 | the table shows the search result over the file as it is now |
| App.ProductApp.LoadProducts | Product_management_system.py:379-388 | the table shows every line's fields |

## Left out

- Widgets, layout, message boxes and the dialogs. A dialog's answer, the row selection and the form values are parameters. A selection is one row index, the first of the selected rows.
- `select_product`, `clear_entries` and `clear`: they only copy values between the table and the entry widgets.
- `initialize_images`, because it downloads the placeholder over the network. The set of existing files is a constructor parameter.
- `display_image` and `clear_image`, because they are PIL calls with no logic of their own.
- `datetime.now()`: the timestamp is an opaque string parameter.
- `root.mainloop()`, and several category windows open at the same time.
- Real file I/O, crash atomicity and partial writes. A file is a string, and the disk is a set of paths; directories (`os.makedirs`) are not modelled.
- The `shutil.copy` error when the staged file already is its own target in `images/`. The model treats that copy as adopting the same path.
- Path aliasing and separators. The disk is a set of path strings, so two spellings of one file (`images/x.jpg` and `/w/images/x.jpg` when the program runs in `/w`) count as two files. Re-staging the current image under its absolute path therefore keeps a live copy in the model, while the program deletes the file before copying it. `Basename` and `ManagedPath` use POSIX `/`; on Windows `os.path.join` builds `images\x.jpg`, which the placeholder comparisons then see as another path.
- Universal-newline translation (`\r` and `\r\n` read as `\n`) and platform line endings.
- Text.Lower: lowers ASCII letters only, while Python's `lower()` follows Unicode case mapping.
- Tk's conversion of table values, which may turn a numeric-looking string into a number. The table rows are the strings inserted.
