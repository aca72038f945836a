/** One line of a long-format directory listing: its kind, its nine-letter
    permission summary and its name; how the summary is built from a POSIX
    mode word; how a line is rendered; and how lines are ordered and
    compared for equality. */
module LineCreator {
  import opened Orderings

  /** The mode word that `PermissionsExt::mode` returns (a `u32`). The
      permission bits use the `<sys/stat.h>` layout: bit 8 is `S_IRUSR`
      (0400) down to bit 0, `S_IXOTH` (0001). */
  type Mode = bv32

  /** The mask of permission bit `bit` (0 to 8), from `S_IXOTH` = 0x001 up
      to `S_IRUSR` = 0x100. */
  function Mask(bit: nat): Mode
    requires bit < 9
  {
    if bit == 0 then 0x001 else if bit == 1 then 0x002 else if bit == 2 then 0x004
    else if bit == 3 then 0x008 else if bit == 4 then 0x010 else if bit == 5 then 0x020
    else if bit == 6 then 0x040 else if bit == 7 then 0x080 else 0x100
  }

  /** The masks are the single bits 1 << 0 to 1 << 8. */
  lemma MaskIsSingleBit(bit: nat)
    requires bit < 9
    ensures Mask(bit) == 1 << bit
  {
  }

  /** Permission bit `bit` of `mode` is set. */
  predicate BitSet(mode: Mode, bit: nat)
    requires bit < 9
  {
    mode & Mask(bit) != 0
  }

  // ---------------------------------------------------------------------
  // Permission summary
  // ---------------------------------------------------------------------

  /** The character pushed for one test: `letter` when it holds, else `-`. */
  function Mark(on: bool, letter: char): char {
    if on then letter else '-'
  }

  /** One position of the summary: `letter` when the bit is set, else `-`. */
  function Flag(mode: Mode, bit: nat, letter: char): char
    requires bit < 9
  {
    Mark(BitSet(mode, bit), letter)
  }

  /** The permission summary by bit position: owner, group, other, each as
      read, write, execute. Written as an empty sequence extended by nine
      single characters, the same shape as the buffer the source fills. */
  function PermissionString(mode: Mode): string {
    [] + [Flag(mode, 8, 'r')] + [Flag(mode, 7, 'w')] + [Flag(mode, 6, 'x')]
       + [Flag(mode, 5, 'r')] + [Flag(mode, 4, 'w')] + [Flag(mode, 3, 'x')]
       + [Flag(mode, 2, 'r')] + [Flag(mode, 1, 'w')] + [Flag(mode, 0, 'x')]
  }

  /** The `mode & mask > 1` test the source uses for bits 8 to 3 means "bit
      set" for every mask of value 2 or more (that is, for bits 1 to 8). */
  lemma MaskGreaterThanOne(mode: Mode, bit: nat)
    requires 1 <= bit < 9
    ensures (mode & Mask(bit) > 1) == BitSet(mode, bit)
  {
  }

  /** The `mode & mask > 0` test the source uses for bits 2 to 0 means "bit
      set" for every mask. */
  lemma MaskGreaterThanZero(mode: Mode, bit: nat)
    requires bit < 9
    ensures (mode & Mask(bit) > 0) == BitSet(mode, bit)
  {
  }

  /** `create_permission_string`: appends nine characters to an empty
      buffer, testing bits 8 to 3 with `> 1` and bits 2 to 0 with `> 0`,
      exactly as the source does. */
  method CreatePermissionString(mode: Mode) returns (rwx: string)
    ensures rwx == PermissionString(mode)
  {
    rwx := [];

    // owner (bits 8..6)
    rwx := rwx + [Mark(mode & 0x100 > 1, 'r')];
    rwx := rwx + [Mark(mode & 0x080 > 1, 'w')];
    rwx := rwx + [Mark(mode & 0x040 > 1, 'x')];

    // group (bits 5..3)
    rwx := rwx + [Mark(mode & 0x020 > 1, 'r')];
    rwx := rwx + [Mark(mode & 0x010 > 1, 'w')];
    rwx := rwx + [Mark(mode & 0x008 > 1, 'x')];

    // other (bits 2..0)
    rwx := rwx + [Mark(mode & 0x004 > 0, 'r')];
    rwx := rwx + [Mark(mode & 0x002 > 0, 'w')];
    rwx := rwx + [Mark(mode & 0x001 > 0, 'x')];

    MaskGreaterThanOne(mode, 8); MaskGreaterThanOne(mode, 7); MaskGreaterThanOne(mode, 6);
    MaskGreaterThanOne(mode, 5); MaskGreaterThanOne(mode, 4); MaskGreaterThanOne(mode, 3);
    MaskGreaterThanZero(mode, 2); MaskGreaterThanZero(mode, 1); MaskGreaterThanZero(mode, 0);
  }

  /** The summary, as one sequence of its nine positions. */
  lemma PermissionStringFlags(mode: Mode)
    ensures PermissionString(mode) ==
      [ Flag(mode, 8, 'r'), Flag(mode, 7, 'w'), Flag(mode, 6, 'x'),
        Flag(mode, 5, 'r'), Flag(mode, 4, 'w'), Flag(mode, 3, 'x'),
        Flag(mode, 2, 'r'), Flag(mode, 1, 'w'), Flag(mode, 0, 'x') ]
  {
  }

  lemma PermissionStringAt(mode: Mode, i: nat)
    requires i < 9
    ensures |PermissionString(mode)| == 9
    ensures PermissionString(mode)[i] == Flag(mode, 8 - i, "rwx"[i % 3])
  {
    PermissionStringFlags(mode);
    var p := PermissionString(mode);
    if i == 0 { assert i % 3 == 0 && p[i] == Flag(mode, 8, 'r'); }
    else if i == 1 { assert i % 3 == 1 && p[i] == Flag(mode, 7, 'w'); }
    else if i == 2 { assert i % 3 == 2 && p[i] == Flag(mode, 6, 'x'); }
    else if i == 3 { assert i % 3 == 0 && p[i] == Flag(mode, 5, 'r'); }
    else if i == 4 { assert i % 3 == 1 && p[i] == Flag(mode, 4, 'w'); }
    else if i == 5 { assert i % 3 == 2 && p[i] == Flag(mode, 3, 'x'); }
    else if i == 6 { assert i % 3 == 0 && p[i] == Flag(mode, 2, 'r'); }
    else if i == 7 { assert i % 3 == 1 && p[i] == Flag(mode, 1, 'w'); }
    else { assert i % 3 == 2 && p[i] == Flag(mode, 0, 'x'); }
  }

  /** Every position holds its letter exactly when its bit is set, and `-`
      exactly when it is clear. */
  lemma PermissionStringPositions(mode: Mode)
    ensures |PermissionString(mode)| == 9
    ensures forall i :: 0 <= i < 9 ==>
      && (PermissionString(mode)[i] == "rwx"[i % 3] <==> BitSet(mode, 8 - i))
      && (PermissionString(mode)[i] == '-' <==> !BitSet(mode, 8 - i))
  {
    PermissionStringFlags(mode);
    forall i | 0 <= i < 9
      ensures PermissionString(mode)[i] == "rwx"[i % 3] <==> BitSet(mode, 8 - i)
      ensures PermissionString(mode)[i] == '-' <==> !BitSet(mode, 8 - i)
    {
      PermissionStringAt(mode, i);
    }
  }

  /** Only the low nine bits of the mode matter. */
  lemma PermissionStringLowNineBits(m1: Mode, m2: Mode)
    requires m1 & 0x1FF == m2 & 0x1FF
    ensures PermissionString(m1) == PermissionString(m2)
  {
  }

  /** Modes 0o000, 0o777, 0o754, 0o644 and 0o755. */
  lemma PermissionStringExamples()
    ensures PermissionString(0x000) == "---------"
    ensures PermissionString(0x1FF) == "rwxrwxrwx"
    ensures PermissionString(0x1EC) == "rwxr-xr--"
    ensures PermissionString(0x1A4) == "rw-r--r--"
    ensures PermissionString(0x1ED) == "rwxr-xr-x"
  {
    PermissionStringFlags(0x000);
    PermissionStringFlags(0x1FF);
    PermissionStringFlags(0x1EC);
    PermissionStringFlags(0x1A4);
    PermissionStringFlags(0x1ED);
  }

  // ---------------------------------------------------------------------
  // Line items
  // ---------------------------------------------------------------------

  /** `LineItemType`. Everything that is not a directory is a `File`. */
  datatype LineItemType = Directory | File

  /** `LineItem`: a value, never updated after construction. */
  datatype LineItem = LineItem(itemType: LineItemType, permissionsString: string, name: string)

  /** `LineItem::new`: stores its three arguments unchanged. */
  function New(itemType: LineItemType, permissionsString: string, name: string): (r: LineItem)
    ensures r.itemType == itemType
    ensures r.permissionsString == permissionsString
    ensures r.name == name
  {
    LineItem(itemType, permissionsString, name)
  }

  /** What `from_path_buf` does once the file system has answered: the kind,
      the mode word and the displayed path are given, and the summary is
      computed from the mode. */
  function FromMode(itemType: LineItemType, mode: Mode, name: string): (r: LineItem)
    ensures r.itemType == itemType && r.name == name
    ensures |r.permissionsString| == 9
    ensures forall i :: 0 <= i < 9 ==>
      && (r.permissionsString[i] == "rwx"[i % 3] <==> BitSet(mode, 8 - i))
      && (r.permissionsString[i] == '-' <==> !BitSet(mode, 8 - i))
  {
    PermissionStringPositions(mode);
    New(itemType, PermissionString(mode), name)
  }

  // ---------------------------------------------------------------------
  // Rendering
  // ---------------------------------------------------------------------

  /** `Display::fmt`: type marker, summary, a space, the name, and a
      trailing `/` for directories only. The line starts with `d` exactly
      for a directory and is two characters longer than summary and name
      together, three for a directory, whose line ends in `/`. */
  function Fmt(item: LineItem): (line: string)
    ensures |line| == |item.permissionsString| + |item.name| + (if item.itemType == Directory then 3 else 2)
    ensures line[0] == 'd' <==> item.itemType == Directory
    ensures item.itemType == Directory ==> line[|line| - 1] == '/'
  {
    match item.itemType
    case Directory => "d" + item.permissionsString + " " + item.name + "/"
    case File => "-" + item.permissionsString + " " + item.name
  }

  /** Where each part of an item sits in its line: the marker is `d`
      exactly for a directory, the summary and the name follow at fixed
      offsets, and only a directory's line gains a character at the end,
      a `/`. */
  lemma FmtLayout(item: LineItem)
    ensures var line, p, n := Fmt(item), |item.permissionsString|, |item.name|;
      && |line| == p + n + (if item.itemType == Directory then 3 else 2)
      && (line[0] == 'd' <==> item.itemType == Directory)
      && (line[0] == '-' <==> item.itemType == File)
      && line[1..p + 1] == item.permissionsString
      && line[p + 1] == ' '
      && line[p + 2..p + 2 + n] == item.name
      && (item.itemType == Directory ==> line[|line| - 1] == '/')
      && (item.itemType == File ==> line[p + 2..] == item.name)
  {
  }

  /** Reads a rendered line back: the inverse of `Fmt` for items whose
      summary has nine characters. */
  function ParseLine(line: string): Option<LineItem> {
    if |line| < 11 || line[10] != ' ' then None
    else if line[0] == 'd' then
      if |line| < 12 || line[|line| - 1] != '/' then None
      else Some(LineItem(Directory, line[1..10], line[11..|line| - 1]))
    else if line[0] == '-' then Some(LineItem(File, line[1..10], line[11..]))
    else None
  }

  /** Rendering loses nothing: the line gives back the item. */
  lemma ParseFmt(item: LineItem)
    requires |item.permissionsString| == 9
    ensures ParseLine(Fmt(item)) == Some(item)
  {
    var line := Fmt(item);
    FmtLayout(item);
    if item.itemType == Directory {
      assert line[11..|line| - 1] == item.name;
    }
  }

  /** Every line that reads back as an item is that item's rendering. */
  lemma FmtParse(line: string, item: LineItem)
    requires ParseLine(line) == Some(item)
    ensures |item.permissionsString| == 9
    ensures Fmt(item) == line
  {
    if line[0] == 'd' {
      assert line == [line[0]] + line[1..10] + [line[10]] + line[11..|line| - 1] + [line[|line| - 1]];
    } else {
      assert line == [line[0]] + line[1..10] + [line[10]] + line[11..];
    }
  }

  /** A line built from a mode has the shape `[d-][rwx-]{9} <name>`, with a
      trailing `/` for directories, and reads back as its item. */
  lemma FromModeLineShape(itemType: LineItemType, mode: Mode, name: string)
    ensures var line := Fmt(FromMode(itemType, mode, name));
      && line[0] in "d-"
      && (forall i :: 1 <= i < 10 ==> line[i] in "rwx-")
      && line[10] == ' '
      && (itemType == Directory ==> line[|line| - 1] == '/')
      && ParseLine(line) == Some(FromMode(itemType, mode, name))
  {
    var item := FromMode(itemType, mode, name);
    var line := Fmt(item);
    FmtLayout(item);
    forall i | 1 <= i < 10
      ensures line[i] in "rwx-"
    {
      assert line[i] == line[1..10][i - 1] == item.permissionsString[i - 1];
    }
    ParseFmt(item);
  }

  // ---------------------------------------------------------------------
  // Ordering
  // ---------------------------------------------------------------------

  /** `Ord::cmp`: directories before files; within one kind, by name. The
      permission summary is never consulted: the answer is Equal exactly
      when kind and name both match. */
  function Cmp(a: LineItem, b: LineItem): (r: Ordering)
    ensures r == Equal <==> a.itemType == b.itemType && a.name == b.name
  {
    match a.itemType
    case Directory =>
      (match b.itemType
       case Directory => LexCmp(a.name, b.name)
       case File => Less)
    case File =>
      (match b.itemType
       case File => LexCmp(a.name, b.name)
       case Directory => Greater)
  }

  /** `PartialOrd::partial_cmp`: never `None`, always the total order. */
  function PartialCmp(a: LineItem, b: LineItem): (r: Option<Ordering>)
    ensures r.Some? && r.value == Cmp(a, b)
  {
    Some(Cmp(a, b))
  }

  /** Any directory sorts before any file, whatever their names and
      permissions. */
  lemma CmpDirectoriesFirst(d: LineItem, f: LineItem)
    requires d.itemType == Directory && f.itemType == File
    ensures Cmp(d, f) == Less && Cmp(f, d) == Greater
  {
  }

  /** Within one kind, `a` sorts before `b` exactly when its name is
      lexicographically smaller. */
  lemma CmpSameKindByName(a: LineItem, b: LineItem)
    requires a.itemType == b.itemType
    ensures Cmp(a, b) == Less <==> LexLess(a.name, b.name)
    ensures Cmp(a, b) == Greater <==> LexLess(b.name, a.name)
  {
    LexCmpLessIff(a.name, b.name);
    LexCmpLessIff(b.name, a.name);
    LexCmpAntisymmetric(a.name, b.name);
  }

  /** Swapping the arguments reverses the answer. */
  lemma CmpAntisymmetric(a: LineItem, b: LineItem)
    ensures Cmp(b, a) == Cmp(a, b).Reverse()
  {
    LexCmpAntisymmetric(a.name, b.name);
  }

  /** Before-or-equal is transitive, and so is strictly-before. */
  lemma CmpTransitive(a: LineItem, b: LineItem, c: LineItem)
    requires Cmp(a, b) != Greater && Cmp(b, c) != Greater
    ensures Cmp(a, c) != Greater
    ensures Cmp(a, b) == Less || Cmp(b, c) == Less ==> Cmp(a, c) == Less
  {
    if a.itemType == b.itemType == c.itemType {
      LexCmpTransitive(a.name, b.name, c.name);
    }
  }

  /** `partial_cmp` is as total as `cmp`: for any two items it answers, and
      the answers in the two directions are mirror images. */
  lemma PartialCmpTotal(a: LineItem, b: LineItem)
    ensures PartialCmp(a, b) == Some(Less) <==> PartialCmp(b, a) == Some(Greater)
    ensures PartialCmp(a, b) == Some(Equal) <==> PartialCmp(b, a) == Some(Equal)
  {
    CmpAntisymmetric(a, b);
  }

  // ---------------------------------------------------------------------
  // Equality
  // ---------------------------------------------------------------------

  /** `PartialEq::eq` as written: the name and the summary of `a` are
      compared with themselves, so it holds exactly when the kinds match. */
  predicate Eq(a: LineItem, b: LineItem)
    ensures Eq(a, b) <==> a.itemType == b.itemType
  {
    && a.itemType == b.itemType
    && a.name == a.name
    && a.permissionsString == a.permissionsString
  }

  /** Whenever `cmp` answers Equal, `eq` holds. */
  lemma CmpEqualImpliesEq(a: LineItem, b: LineItem)
    requires Cmp(a, b) == Equal
    ensures Eq(a, b)
  {
  }

  /** The converse fails: two files with different names are `eq`, though
      `cmp` orders them. */
  lemma EqDisagreesWithCmp()
    ensures var a, b := LineItem(File, "rw-r--r--", "a"), LineItem(File, "rw-r--r--", "b");
      Eq(a, b) && Cmp(a, b) == Less
  {
  }

  /** Equality as evidently intended: every field of one item compared with
      the same field of the other. */
  predicate EqIntended(a: LineItem, b: LineItem) {
    && a.itemType == b.itemType
    && a.name == b.name
    && a.permissionsString == b.permissionsString
  }

  /** Intended equality is equality of the items, and equal items compare
      Equal. The converse does not hold: `cmp` ignores the summary (see
      `EqIntendedStillDisagreesWithCmp`). */
  lemma EqIntendedIsEquality(a: LineItem, b: LineItem)
    ensures EqIntended(a, b) <==> a == b
    ensures EqIntended(a, b) ==> Cmp(a, b) == Equal
  {
  }

  /** Even field-by-field equality disagrees with `cmp` when only the
      summaries differ: the two items below compare Equal yet are not
      equal. */
  lemma EqIntendedStillDisagreesWithCmp()
    ensures var a, b := LineItem(File, "rw-r--r--", "a"), LineItem(File, "rwxr-xr-x", "a");
      !EqIntended(a, b) && Cmp(a, b) == Equal
  {
  }

  /** Equality that agrees with `cmp` in both directions compares kind and
      name only. */
  predicate EqByKindAndName(a: LineItem, b: LineItem) {
    a.itemType == b.itemType && a.name == b.name
  }

  /** `EqByKindAndName(a, b)` holds exactly when `partial_cmp(a, b)` is
      `Some(Equal)`, the law Rust asks `PartialEq` and `PartialOrd` to
      keep together. */
  lemma EqByKindAndNameMatchesPartialCmp(a: LineItem, b: LineItem)
    ensures EqByKindAndName(a, b) <==> PartialCmp(a, b) == Some(Equal)
  {
  }

  // ---------------------------------------------------------------------
  // A listing
  // ---------------------------------------------------------------------

  /** Items in the order that sorting by `cmp` produces. */
  predicate Sorted(items: seq<LineItem>) {
    forall i, j :: 0 <= i < j < |items| ==> Cmp(items[i], items[j]) != Greater
  }

  /** The line of a directory `src` with mode 0o755. */
  lemma FmtDirectoryExample()
    ensures Fmt(FromMode(Directory, 0x1ED, "src")) == "drwxr-xr-x src/"
  {
    var item := FromMode(Directory, 0x1ED, "src");
    assert item == LineItem(Directory, "rwxr-xr-x", "src") by { PermissionStringExamples(); }
    assert Fmt(item) == "d" + "rwxr-xr-x" + " " + "src" + "/";
  }

  /** The line of a file `Cargo.toml` with mode 0o644. */
  lemma FmtFileExample()
    ensures Fmt(FromMode(File, 0x1A4, "Cargo.toml")) == "-rw-r--r-- Cargo.toml"
  {
    var item := FromMode(File, 0x1A4, "Cargo.toml");
    assert item == LineItem(File, "rw-r--r--", "Cargo.toml") by { PermissionStringExamples(); }
    assert Fmt(item) == "-" + "rw-r--r--" + " " + "Cargo.toml";
  }

  /** Two directories and two files, in the order a listing shows them. */
  lemma ListingExample()
    ensures Sorted([ LineItem(Directory, "rwxr-xr-x", "alpha"), LineItem(Directory, "rwxr-xr-x", "beta"),
                     LineItem(File, "rw-r--r--", "alpha.txt"), LineItem(File, "rw-r--r--", "beta.txt") ])
  {
    var items := [ LineItem(Directory, "rwxr-xr-x", "alpha"), LineItem(Directory, "rwxr-xr-x", "beta"),
                   LineItem(File, "rw-r--r--", "alpha.txt"), LineItem(File, "rw-r--r--", "beta.txt") ];
    assert Cmp(items[0], items[1]) == Less by { assert 'a' < 'b'; }
    assert Cmp(items[2], items[3]) == Less by { assert 'a' < 'b'; }
    forall i, j | 0 <= i < j < 4
      ensures Cmp(items[i], items[j]) != Greater
    {
      if i < 2 && 2 <= j { CmpDirectoriesFirst(items[i], items[j]); }
    }
  }
}
