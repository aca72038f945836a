# rusty-ls line items in Dafny

This project models `src/line_creator.rs` of rusty-ls, a small `ls -l` clone.
That file defines the `LineItem` value type, one line of a long-format directory listing.
A line item has:
- a kind, `Directory` or `File`;
- a nine-character permission summary such as `rwxr-xr-x`;
- a name.

The model covers:
- how the summary is built from a POSIX mode word;
- how an item is rendered as a line (`d`/`-`, the summary, a space, the name, and a trailing `/` for directories);
- how items are ordered: directories first, then by name;
- how items are compared for equality.

Two modules:

- `Orderings` (`orderings.dfy`) holds Rust's `Ordering`, an `Option`, and `LexCmp`.
  `LexCmp` is the lexicographic string comparison that `String::cmp` performs.
  Rust compares UTF-8 bytes, and that order is the same as code-point order, so `LexCmp` compares characters.
  Lemmas prove that it is a total order. They also prove that it agrees with an independent definition, `LexLess`, stated via the first differing position or a proper prefix.
- `LineCreator` (`line_creator.dfy`) holds the mode word, the permission summary and the `LineItem` operations.
  - The mode word is a `bv32`, since `PermissionsExt::mode` returns a `u32`.
  - `create_permission_string` builds a buffer with nine successive pushes. It is modelled as the method `CreatePermissionString`, which appends nine characters to a sequence in the same order and with the same tests.
  - Bits 8 to 3 are tested with `mode & mask > 1` and bits 2 to 0 with `> 0`, as in the code.
  - The method is proved equal to `PermissionString`, a definition by bit position. Lemmas then prove that each position shows its letter exactly when its bit is set.

Notes on the code as written:

- The `> 1` tests on bits 8 to 3 behave exactly like "bit set", because every one of those masks is at least 8 (`MaskGreaterThanOne`).
- The comments in `create_permission_string` call the first triad "world" and the last "user". In fact, bits 8 to 6 are the owner's (`S_IRUSR` = 0400 and so on) and bits 2 to 0 are the others'. The model names the triads by bit position.
- The item name is whatever `path.display()` yields for the entry's full path. The code does not reduce it to the final path component. It also hides no entries: dot-files are listed too. The model therefore treats the name as an opaque string and has no hidden-entry filter.
- `eq` compares `self.name` with `self.name` and `self.permissions_string` with `self.permissions_string`. Equality as written therefore depends on the kind alone (see Findings).

The entities: `LineItemType` (src/line_creator.rs:8-12) is the datatype `LineCreator.LineItemType`, and `LineItem` (src/line_creator.rs:14-18) is the datatype `LineCreator.LineItem` with the same three fields. `ParseLine`, which reads a rendered line back into an item, has no counterpart in the code. It is defined only in this model, as the inverse that `ParseFmt` and `FmtParse` use to show that `Fmt` loses nothing.

## Model

| member | source | states |
|---|---|---|
| `Orderings.LexCmp` | src/line_creator.rs:72 | models `String::cmp` on the names: compares character by character, with a proper prefix first. Its contract: Equal exactly for equal strings. `LexCmpLessIff` ties Less to the reference order; `LexCmpAntisymmetric` and `LexCmpTransitive` make it a total order |
| `Orderings.LexCmpAntisymmetric` | src/line_creator.rs:77 | swapping the two names reverses the name comparison |
| `Orderings.LexCmpLessTransitive` | src/line_creator.rs:72 | strictly-before on names is transitive |
| `Orderings.LexCmpTransitive` | src/line_creator.rs:77 | before-or-equal on names is transitive, and its Equal cases force all three names equal |
| `Orderings.LexCmpLessIff` | src/line_creator.rs:72 | the name comparison says Less exactly when the first name is a proper prefix of the second or has the smaller character at the first difference |
| `LineCreator.MaskIsSingleBit` | src/line_creator.rs:41-53 | the nine masks are the single bits 1 << 0 to 1 << 8 (`S_IXOTH` up to `S_IRUSR`) |
| `LineCreator.MaskGreaterThanOne` | src/line_creator.rs:41-48 | for the masks of bits 1 to 8, `mode & mask > 1` holds exactly when the bit is set |
| `LineCreator.MaskGreaterThanZero` | src/line_creator.rs:51-53 | `mode & mask > 0` holds exactly when the bit is set |
| `LineCreator.CreatePermissionString` | src/line_creator.rs:36-56 | the nine pushes, with the source's `> 1` and `> 0` tests, produce exactly the summary defined by bit position |
| `LineCreator.PermissionStringAt` | src/line_creator.rs:41-53 | the summary has nine characters, and position i is the flag of bit 8 - i with letter "rwx"[i % 3] |
| `LineCreator.PermissionStringPositions` | src/line_creator.rs:38-55 | for every position i, the character is "rwx"[i % 3] exactly when bit 8 - i is set, and `-` exactly when it is clear |
| `LineCreator.PermissionStringLowNineBits` | src/line_creator.rs:41-53 | two modes that agree on bits 0 to 8 give the same summary |
| `LineCreator.PermissionStringExamples` | src/line_creator.rs:41-53 | 0o000 gives `---------`, 0o777 `rwxrwxrwx`, 0o754 `rwxr-xr--`, 0o644 `rw-r--r--`, 0o755 `rwxr-xr-x` |
| `LineCreator.New` | src/line_creator.rs:21-27 | the constructor keeps its kind, summary and name unchanged |
| `LineCreator.FromMode` | src/line_creator.rs:30-33 | an item built from a kind, a mode and a name keeps kind and name, and gets a nine-character summary whose position i is its letter exactly when bit 8 - i is set |
| `LineCreator.Fmt` | src/line_creator.rs:59-66 | models `fmt`: `d`, summary, space, name and `/` for a directory; `-`, summary, space and name otherwise. Its contract: the line starts with `d` exactly for a directory, its length is summary plus name plus 2 (plus 3 for a directory), and a directory's line ends in `/`. `FmtLayout` places every part, and `ParseFmt`/`FmtParse` show nothing is lost |
| `LineCreator.FmtLayout` | src/line_creator.rs:59-66 | a rendered line starts with `d` exactly for a directory (`-` for a file), then the summary, a space and the name; only a directory's line has one more character, a final `/` |
| `LineCreator.ParseFmt` | src/line_creator.rs:61-64 | reading a rendered line back gives the item again (for a nine-character summary) |
| `LineCreator.FmtParse` | src/line_creator.rs:61-64 | every line that reads back as an item is that item's rendering, so rendering and reading are inverse |
| `LineCreator.FromModeLineShape` | src/line_creator.rs:59-66 | a line built from a mode has the shape `[d-][rwx-]{9} name`, ends in `/` for a directory, and reads back as its item |
| `LineCreator.FmtDirectoryExample` | src/line_creator.rs:62 | directory `src` with mode 0o755 renders as `drwxr-xr-x src/` |
| `LineCreator.FmtFileExample` | src/line_creator.rs:63 | file `Cargo.toml` with mode 0o644 renders as `-rw-r--r-- Cargo.toml` |
| `LineCreator.CmpDirectoriesFirst` | src/line_creator.rs:71-79 | any directory compares Less than any file and any file Greater than any directory, whatever the names and summaries |
| `LineCreator.CmpSameKindByName` | src/line_creator.rs:72-77 | within one kind, an item sorts before another exactly when its name is lexicographically smaller, and after it exactly when it is larger |
| `LineCreator.Cmp` | src/line_creator.rs:68-82 | models `cmp`: a directory before a file, and by `LexCmp` on the names within one kind. Its contract: Equal exactly when kind and name both match, so the summary is never consulted. `CmpDirectoriesFirst`, `CmpSameKindByName`, `CmpAntisymmetric` and `CmpTransitive` state the rest of the order |
| `LineCreator.CmpAntisymmetric` | src/line_creator.rs:68-82 | `cmp(b, a)` is the reverse of `cmp(a, b)` |
| `LineCreator.CmpTransitive` | src/line_creator.rs:68-82 | before-or-equal is transitive, and the result is strict when either step is strict |
| `LineCreator.PartialCmp` | src/line_creator.rs:84-88 | `partial_cmp` never answers None and always carries the answer of `cmp` |
| `LineCreator.PartialCmpTotal` | src/line_creator.rs:84-88 | `partial_cmp(a, b)` is Less exactly when `partial_cmp(b, a)` is Greater, and Equal in both directions or in neither |
| `LineCreator.Eq` | src/line_creator.rs:90-96 | models `eq` as written, including the self-comparisons of name and summary. Its contract: it holds exactly when the two kinds match |
| `LineCreator.CmpEqualImpliesEq` | src/line_creator.rs:68-95 | whenever `cmp` answers Equal, `eq` holds |
| `LineCreator.EqDisagreesWithCmp` | src/line_creator.rs:91-95 | two files named `a` and `b` are `eq`, yet `cmp` orders them Less |
| `LineCreator.EqIntendedIsEquality` | src/line_creator.rs:91-95 | field-by-field equality is equality of the items, and equal items compare Equal |
| `LineCreator.EqIntendedStillDisagreesWithCmp` | src/line_creator.rs:68-95 | field-by-field equality still disagrees with `cmp`: two files named `a` whose summaries differ compare Equal, yet are not equal |
| `LineCreator.EqByKindAndNameMatchesPartialCmp` | src/line_creator.rs:84-95 | equality of kind and name holds exactly when `partial_cmp` answers `Some(Equal)`, so it is the equality that keeps Rust's two-way law with `cmp` |
| `LineCreator.ListingExample` | src/line_creator.rs:68-82 | directories `alpha`, `beta` then files `alpha.txt`, `beta.txt` are in `cmp` order |

## Left out

- The file-system queries of `from_path_buf` (`path.is_dir()`, `path.metadata()`, `path.display()`, and the `io::Error` that `?` passes on) are left out because they are foreign calls. `FromMode` models the rest: the kind, the mode word and the displayed name are its parameters.
- The `Permissions` / `PermissionsExt` wrapper is left out, because it is a foreign type. The mode word is passed as a `bv32`.
- The `fmt::Formatter` machinery is left out, including a write that fails. `Fmt` returns the line as a string.
- `src/main.rs` is not part of this model. It covers reading the current directory, propagating errors, the library `Vec::sort` and `println!`, all of which are I/O or library code. The predicate `Sorted` only states the order that sorting by `cmp` produces.
- `LineCreator.PartialCmp`: its contract is the wrapping of `cmp` itself. What it means is stated by `PartialCmpTotal` and the `Cmp` lemmas.

## Findings

| source | as written | input that shows it | evidently intended | confidence | as-written member | corrected member |
|---|---|---|---|---|---|---|
| src/line_creator.rs:93-94 | `eq` compares `self.name == self.name` and `self.permissions_string == self.permissions_string`, so only the kinds are compared | two `File` items named `a` and `b` with summary `rw-r--r--`: `eq` is true, while `cmp` answers Less | compare each field of `self` with the same field of `other`; even so, `eq` and `cmp` still disagree when only the summaries differ (`EqIntendedStillDisagreesWithCmp`), and only equality of kind and name keeps Rust's two-way law (`EqByKindAndNameMatchesPartialCmp`) | high; not executed | `LineCreator.EqDisagreesWithCmp` | `LineCreator.EqIntendedIsEquality` |
