/**
 Which load commands the tables of an image are made from: mk_load_command_init and the
 initialisers that take only a segment.
 */
module TableSelection {
  import opened Machine
  import opened Core
  import opened Memory
  import opened LoadCommands
  import opened CommandLists
  import opened CommandSearch
  import opened MachOImages
  import opened LinkEdit
  import opened StringTables
  import opened SymbolTables
  import opened ExportsTries

  // ---------------------------------------------------------------------------
  //  The first and the last command of a type
  // ---------------------------------------------------------------------------

  /** The position of the first command of this type. */
  function FirstOf(h: Header, kind: u32): Option<nat>
    requires h.Valid()
  {
    var m := Matches(h, kind);
    if m == [] then None else Some(m[0])
  }

  /** The position of the last command of this type. */
  function LastOf(h: Header, kind: u32): Option<nat>
    requires h.Valid()
  {
    var m := Matches(h, kind);
    if m == [] then None else Some(m[|m| - 1])
  }

  /** There is a command of this type at `pos` among the image's commands. */
  ghost predicate IsListed(h: Header, pos: nat, kind: u32)
    requires h.Valid()
  {
    pos in h.Commands() && h.IsKind(pos, kind)
  }

  /** Every command of a type is among the matches. */
  lemma {:induction false} MatchesAreAll(h: Header, s: seq<nat>, kind: u32, pos: nat)
    ensures pos in OfType(h, s, kind) <==> pos in s && h.IsKind(pos, kind)
    decreases |s|
  {
    hide Header.IsKind;
    if s != [] {
      MatchesAreAll(h, s[1..], kind, pos);
      assert s == [s[0]] + s[1..];
      var rest := OfType(h, s[1..], kind);
      assert OfType(h, s, kind) == if h.IsKind(s[0], kind) then [s[0]] + rest else rest;
    }
  }

  /** The matches are in order of position. */
  lemma MatchesAreOrdered(h: Header, kind: u32, i: nat)
    requires h.Valid() && i < |Matches(h, kind)|
    ensures Matches(h, kind)[0] <= Matches(h, kind)[i] <= Matches(h, kind)[|Matches(h, kind)| - 1]
  {
    hide *;
    MatchesIncrease(h, kind);
    IncreasingBounds(Matches(h, kind), i);
  }

  lemma MatchesIncrease(h: Header, kind: u32)
    requires h.Valid()
    ensures Increasing(Matches(h, kind))
  {
    CommandsIncrease(h);
    OfTypeIncreases(h, h.Commands(), kind);
  }

  lemma IncreasingBounds(m: seq<nat>, i: nat)
    requires Increasing(m) && i < |m|
    ensures m[0] <= m[i] <= m[|m| - 1]
  {
    if i > 0 {
      IncreasingOverall(m, i);
    }
    if i < |m| - 1 {
      IncreasingOverall(m[i..], |m| - 1 - i);
    }
  }

  /**
   What the two searches return, said without lists: the lowest and the highest position of that type, if
   there is one.
   */
  lemma SelectedIsExtreme(h: Header, kind: u32, pos: nat)
    requires h.Valid()
    ensures FirstOf(h, kind) == Some(pos) <==>
              IsListed(h, pos, kind) && forall other: nat :: IsListed(h, other, kind) ==> pos <= other
    ensures LastOf(h, kind) == Some(pos) <==>
              IsListed(h, pos, kind) && forall other: nat :: IsListed(h, other, kind) ==> other <= pos
    ensures FirstOf(h, kind) == None <==> LastOf(h, kind) == None
    ensures LastOf(h, kind) == None <==> forall other: nat :: !IsListed(h, other, kind)
  {
    hide Header.Commands, Header.IsKind, OfType;
    var m := Matches(h, kind);
    forall p ensures IsListed(h, p, kind) <==> p in m {
      MatchesAreAll(h, h.Commands(), kind, p);
    }
    forall i | 0 <= i < |m| ensures m[0] <= m[i] <= m[|m| - 1] {
      MatchesAreOrdered(h, kind, i);
    }
    assert m != [] ==> IsListed(h, m[0], kind) && IsListed(h, m[|m| - 1], kind);
  }

  // ---------------------------------------------------------------------------
  //  Load command objects
  // ---------------------------------------------------------------------------

  /** The command types with a class of their own, as numbered in <mach-o/loader.h>. */
  const CLASS_TYPES: set<u32> := {
    0x1, 0x2, 0xB, 0xC, 0xD, 0xE, 0xF, 0x11, 0x12, 0x14, 0x15, 0x16, 0x17, 0x19, 0x1A, 0x1B, 0x1D, 0x1E,
    0x20, 0x21, 0x22, 0x24, 0x25, 0x26, 0x27, 0x29, 0x2A, 0x2B, 0x2C, 0x2D, 0x2F, 0x30, 0x31, 0x32,
    0x8000_0018, 0x8000_001C, 0x8000_001F, 0x8000_0022, 0x8000_0023, 0x8000_0028, 0x8000_0033, 0x8000_0034
  }

  /** The types from 1 to 0x34 that have no class, as numbers with and without LC_REQ_DYLD. */
  lemma TypesWithoutClass(kind: u32)
    requires 0x1 <= kind <= 0x34
    ensures kind in CLASS_TYPES <==>
              kind !in {0x3, 0x4, 0x5, 0x6, 0x7, 0x8, 0x9, 0xA, 0x10, 0x13, 0x18, 0x1C, 0x1F, 0x23, 0x28, 0x2E,
                        0x33, 0x34}
    ensures kind + 0x8000_0000 in CLASS_TYPES <==> kind in {0x18, 0x1C, 0x1F, 0x22, 0x23, 0x28, 0x33, 0x34}
  {
  }

  /** The command behind a host pointer is wholly mapped and of a type that has a class. */
  ghost predicate HasObject(h: Header, lc: u64)
    requires h.Valid()
  {
    && h.mapping.HoldsHost(lc, LC_MIN)
    && h.mapping.HoldsHost(lc, h.CommandSize(lc - h.mapping.host))
    && h.CommandType(lc - h.mapping.host) in CLASS_TYPES
  }

  /**
   mk_load_command_init on any pointer. The class of the object is decided by the type word alone, so
   LoadCommand.Kind stands for it.
   */
  method InitLoadCommand(image: MachOImage, lc: u64) returns (err: Error, command: Option<LoadCommand>)
    requires image.header.Valid()
    ensures HasObject(image.header, lc) ==>
              err == ESuccess && command == Some(LoadCommand(image, image.header, lc - image.header.mapping.host))
    ensures !HasObject(image.header, lc) ==> err == EInvalidData && command == None
  {
    hide Read32, CLASS_TYPES;
    var mapping := image.header.mapping;
    if mapping.VerifyLocalPointer(0, lc, LC_MIN) != ESuccess {
      return EInvalidData, None;
    }
    var size := image.header.CommandSize(lc - mapping.host);
    if mapping.VerifyLocalPointer(0, lc, size) != ESuccess {
      return EInvalidData, None;
    }
    if image.header.CommandType(lc - mapping.host) !in CLASS_TYPES {
      return EInvalidData, None;
    }
    return ESuccess, Some(LoadCommand(image, image.header, lc - mapping.host));
  }

  /** The pointer to a listed command passes the checks of mk_load_command_init if its type has a class. */
  lemma ListedCommandIsInside(h: Header, kind: u32, i: nat)
    requires h.Valid() && i < |Matches(h, kind)|
    ensures var pos := Matches(h, kind)[i];
            && h.PointerTo(pos) - h.mapping.host == pos && pos + LC_MIN <= |h.mapping.bytes|
            && h.CommandType(pos) == kind
            && (kind in CLASS_TYPES ==> HasObject(h, h.PointerTo(pos)))
  {
    hide Read32, Header.Commands, CLASS_TYPES;
    var pos := Matches(h, kind)[i];
    assert h.IsKind(pos, kind) && pos in h.Commands();
    var k :| 0 <= k < |h.Commands()| && h.Commands()[k] == pos;
    CommandIsMapped(h, k);
    PointerIsAt(h, pos);
  }

  /** The command at a selected position of a segment's image. */
  function CommandAt(s: Segment, pos: Option<nat>): Option<LoadCommand>
    reads s.image
  {
    match pos
    case None => None
    case Some(p) => Some(LoadCommand(s.image, s.image.header, p))
  }

  /**
   The first `length` bytes of the last command of this type are mapped. They reach to the last field that is
   read; the field getters do not check 'cmdsize'.
   */
  ghost predicate LastIsReadable(h: Header, kind: u32, length: nat)
    requires h.Valid()
  {
    LastOf(h, kind).Some? ==> LastOf(h, kind).value + length <= |h.mapping.bytes|
  }

  /** What an initialiser that takes a segment needs: an image whose commands can be iterated to the end. */
  ghost predicate Searchable(s: Segment)
    reads s.image
  {
    s.Valid() && s.image.header.Valid() && !s.image.header.Stalls(s.image.header.Commands())
  }

  // ---------------------------------------------------------------------------
  //  The initialisers
  // ---------------------------------------------------------------------------

  /** mk_macho_last_command_type and mk_load_command_init, one after the other. */
  method LastCommand(segment: Segment, kind: u32) returns (command: Option<LoadCommand>)
    requires Searchable(segment) && kind in CLASS_TYPES
    ensures command == CommandAt(segment, LastOf(segment.image.header, kind))
    ensures command.Some? ==> command.value.Holds(LC_MIN) && command.value.Kind() == kind
  {
    hide Header.Commands, OfType, Header.Stalls, Read32;
    var image, h := segment.image, segment.image.header;
    var lc, _ := image.LastCommandType(kind, 0);  // the caller does not use the target address
    if lc.None? {
      return None;
    }
    ListedCommandIsInside(h, kind, |Matches(h, kind)| - 1);
    var err;
    err, command := InitLoadCommand(image, lc.value);
  }

  /** mk_string_table_init_with_segment. */
  method InitStringTable(segment: Segment, table: StringTable) returns (err: Error)
    requires Searchable(segment) && LastIsReadable(segment.image.header, LC_SYMTAB, 24)
    modifies table
    ensures match StringRange(segment)
            case Ok(r) => err == ESuccess && table.Valid() && table.segment == segment && table.range == r
            case Err(e) => err == e && table.live == old(table.live)
    ensures var written := StringTables.WrittenRange(segment,
              CommandAt(segment, LastOf(segment.image.header, LC_SYMTAB)));
            && table.segment == (if written.Some? then segment else old(table.segment))
            && table.range == (if written.Some? then written.value else old(table.range))
  {
    hide Matches, StringTables.InitRange, StoredRange, Read32, Header.Stalls, Header.Commands;
    var command := LastCommand(segment, LC_SYMTAB);
    if command.None? {
      return ENotFound;
    }
    err := table.Init(segment, command);
  }

  /** The range of the string table made from a segment. */
  function StringRange(s: Segment): Result<Range>
    requires Searchable(s) && LastIsReadable(s.image.header, LC_SYMTAB, 24)
    reads s.image
  {
    match LastOf(s.image.header, LC_SYMTAB)
    case None => Err(ENotFound)
    case Some(p) => StringTables.InitRange(s, Some(LoadCommand(s.image, s.image.header, p)))
  }

  /** mk_symbol_table_init_with_segment: the last LC_SYMTAB, but the first LC_DYSYMTAB. */
  method InitSymbolTable(segment: Segment, table: SymbolTable) returns (err: Error)
    requires Searchable(segment) && LastIsReadable(segment.image.header, LC_SYMTAB, 16)
    modifies table
    ensures match SymbolTableRange(segment)
            case Ok(r) => err == ESuccess && table.Valid() && table.segment == segment && table.range == r
                          && table.symtab == CommandAt(segment, LastOf(segment.image.header, LC_SYMTAB))
                          && (FirstOf(segment.image.header, LC_DYSYMTAB).Some? ==>
                                table.dysymtab == CommandAt(segment, FirstOf(segment.image.header, LC_DYSYMTAB)))
            case Err(e) => err == e && table.live == old(table.live)
                           && table.symtab == old(table.symtab) && table.dysymtab == old(table.dysymtab)
    ensures var written := SymbolTableWritten(segment);
            && table.segment == (if written.Some? then segment else old(table.segment))
            && table.range == (if written.Some? then written.value else old(table.range))
  {
    hide Matches, SymbolRange, StoredRange, Read32, Header.Stalls, Header.Commands;
    var symtab := LastCommand(segment, LC_SYMTAB);
    if symtab.None? {
      return ENotFound;
    }
    var dysymtab := FirstCommand(segment, LC_DYSYMTAB);
    err := table.Init(segment, symtab, dysymtab);
  }

  /** mk_macho_find_command and mk_load_command_init, one after the other. */
  method FirstCommand(segment: Segment, kind: u32) returns (command: Option<LoadCommand>)
    requires Searchable(segment) && kind in CLASS_TYPES
    ensures command == CommandAt(segment, FirstOf(segment.image.header, kind))
    ensures command.Some? ==> command.value.Holds(LC_MIN) && command.value.Kind() == kind
  {
    hide Header.Commands, OfType, Header.Stalls, Read32;
    var image, h := segment.image, segment.image.header;
    var lc, _ := image.FindCommand(kind, 0);  // the caller does not use the target address
    if lc.None? {
      return None;
    }
    ListedCommandIsInside(h, kind, 0);
    var err;
    err, command := InitLoadCommand(image, lc.value);
  }

  /** The range of the symbol table made from a segment. */
  function SymbolTableRange(s: Segment): Result<Range>
    requires Searchable(s) && LastIsReadable(s.image.header, LC_SYMTAB, 16)
    reads s.image
  {
    match LastOf(s.image.header, LC_SYMTAB)
    case None => Err(ENotFound)
    case Some(p) =>
      SymbolRange(s, Some(LoadCommand(s.image, s.image.header, p)), CommandAt(s, FirstOf(s.image.header, LC_DYSYMTAB)))
  }

  /** The range that is written, also if the initialiser then fails. */
  function SymbolTableWritten(s: Segment): Option<Range>
    requires Searchable(s) && LastIsReadable(s.image.header, LC_SYMTAB, 16)
    reads s.image
  {
    var symtab := CommandAt(s, LastOf(s.image.header, LC_SYMTAB));
    WrittenSymbolRange(s, symtab, CommandAt(s, FirstOf(s.image.header, LC_DYSYMTAB)))
  }

  /** mk_indirect_symbol_table_init_with_segment: the last LC_DYSYMTAB. */
  method InitIndirectSymbolTable(segment: Segment, table: IndirectSymbolTable) returns (err: Error)
    requires Searchable(segment) && LastIsReadable(segment.image.header, LC_DYSYMTAB, 64)
    modifies table
    ensures match IndirectTableRange(segment)
            case Ok(r) => err == ESuccess && table.Valid() && table.segment == segment && table.range == r
                          && table.dysymtab == CommandAt(segment, LastOf(segment.image.header, LC_DYSYMTAB))
            case Err(e) => err == e && table.live == old(table.live) && table.dysymtab == old(table.dysymtab)
    ensures var written := WrittenIndirectRange(segment, CommandAt(segment, LastOf(segment.image.header, LC_DYSYMTAB)));
            && table.segment == (if written.Some? then segment else old(table.segment))
            && table.range == (if written.Some? then written.value else old(table.range))
  {
    hide Matches, IndirectRange, StoredRange, Read32, Header.Stalls, Header.Commands;
    var command := LastCommand(segment, LC_DYSYMTAB);
    if command.None? {
      return ENotFound;
    }
    err := table.Init(segment, command);
  }

  /** The range of the indirect symbol table made from a segment. */
  function IndirectTableRange(s: Segment): Result<Range>
    requires Searchable(s) && LastIsReadable(s.image.header, LC_DYSYMTAB, 64)
    reads s.image
  {
    match LastOf(s.image.header, LC_DYSYMTAB)
    case None => Err(ENotFound)
    case Some(p) => IndirectRange(s, Some(LoadCommand(s.image, s.image.header, p)))
  }

  /** The command the exports trie is made from. */
  function TrieCommand(h: Header): Option<nat>
    requires h.Valid()
  {
    if LastOf(h, LC_DYLD_EXPORTS_TRIE).Some? then LastOf(h, LC_DYLD_EXPORTS_TRIE)
    else if LastOf(h, LC_DYLD_INFO).Some? then LastOf(h, LC_DYLD_INFO)
    else LastOf(h, LC_DYLD_INFO_ONLY)
  }

  /** The fields that are read of the command the exports trie is made from are mapped. */
  ghost predicate TrieCommandIsReadable(h: Header)
    requires h.Valid()
  {
    TrieCommand(h).Some? ==>
      var pos := TrieCommand(h).value;
      pos + LC_MIN <= |h.mapping.bytes| && pos + FieldsLength(h.CommandType(pos)) <= |h.mapping.bytes|
  }

  /** mk_exports_trie_init_with_segment. */
  method InitExportsTrie(segment: Segment, trie: ExportsTrie) returns (err: Error)
    requires Searchable(segment) && TrieCommandIsReadable(segment.image.header)
    modifies trie
    ensures match TrieRange(segment)
            case Ok(r) => err == ESuccess && trie.Valid() && trie.segment == segment && trie.range == r
            case Err(e) => err == e && trie.live == old(trie.live)
    ensures var written := TrieWritten(segment);
            && trie.segment == (if written.Some? then segment else old(trie.segment))
            && trie.range == (if written.Some? then written.value else old(trie.range))
  {
    hide Matches, ExportsTries.InitRange, StoredRange, Read32, Header.Stalls, Header.Commands;
    var fromTrie := LastCommand(segment, LC_DYLD_EXPORTS_TRIE);
    var fromInfo := LastCommand(segment, LC_DYLD_INFO);
    var fromInfoOnly := LastCommand(segment, LC_DYLD_INFO_ONLY);
    var command := if fromTrie.Some? then fromTrie else if fromInfo.Some? then fromInfo else fromInfoOnly;
    if command.None? {
      return ENotFound;
    }
    err := trie.Init(segment, command);
  }

  /** The range of the exports trie made from a segment. */
  function TrieRange(s: Segment): Result<Range>
    requires Searchable(s) && TrieCommandIsReadable(s.image.header)
    reads s.image
  {
    match TrieCommand(s.image.header)
    case None => Err(ENotFound)
    case Some(p) => ExportsTries.InitRange(s, Some(LoadCommand(s.image, s.image.header, p)))
  }

  /** The range that is written, also if the initialiser then fails. */
  function TrieWritten(s: Segment): Option<Range>
    requires Searchable(s) && TrieCommandIsReadable(s.image.header)
    reads s.image
  {
    match TrieCommand(s.image.header)
    case None => None
    case Some(p) => ExportsTries.WrittenRange(s, Some(LoadCommand(s.image, s.image.header, p)))
  }

  // ---------------------------------------------------------------------------
  //  How the choices fit together
  // ---------------------------------------------------------------------------

  /**
   The string table and the symbol table of a segment come from one LC_SYMTAB, the image's last: they are as far
   apart in memory as its fields say, and overlap iff the file intervals in it do.
   */
  lemma StringsAndSymbolsBelongTogether(s: Segment)
    requires Searchable(s) && LastIsReadable(s.image.header, LC_SYMTAB, 24)
    requires StringRange(s).Ok? && SymbolTableRange(s).Ok?
    ensures LastOf(s.image.header, LC_SYMTAB).Some?
    ensures var symtab := LoadCommand(s.image, s.image.header, LastOf(s.image.header, LC_SYMTAB).value);
            var strings, symbols := StringRange(s).value, SymbolTableRange(s).value;
            && symtab.Holds(24)
            && strings.location - symbols.location == symtab.Word(16) - symtab.Word(8)
            && strings.length == symtab.Word(20) && symbols.length == symtab.Word(12) * NlistSize(s.image.header)
            && ((exists x :: strings.Holds(x) && symbols.Holds(x)) <==>
                (exists f :: Range(symtab.Word(16), strings.length).Holds(f)
                  && Range(symtab.Word(8), symbols.length).Holds(f)))
  {
    hide Read32, Placement, Matches;
    var symtab := LoadCommand(s.image, s.image.header, LastOf(s.image.header, LC_SYMTAB).value);
    var size: u64 := symtab.Word(12) as int * NlistSize(s.image.header);
    PlacementIsExact(s, symtab.Word(16), symtab.Word(20));
    PlacementIsExact(s, symtab.Word(8), size);
    PlacementKeepsDistances(s, symtab.Word(16), symtab.Word(20), symtab.Word(8), size);
  }

  /** Tables that take the first and the last command of a type use the same one iff the image has at most one. */
  lemma FirstAndLastAgree(h: Header, kind: u32)
    requires h.Valid()
    ensures FirstOf(h, kind) == LastOf(h, kind) <==>
              forall p: nat, q: nat :: IsListed(h, p, kind) && IsListed(h, q, kind) ==> p == q
  {
    hide IsListed, Matches;
    var first, last := FirstOf(h, kind), LastOf(h, kind);
    SelectedIsExtreme(h, kind, if first.Some? then first.value else 0);
    SelectedIsExtreme(h, kind, if last.Some? then last.value else 0);
  }

  /** `pos` is the last command of this type. */
  ghost predicate IsLatest(h: Header, pos: nat, kind: u32)
    requires h.Valid()
  {
    IsListed(h, pos, kind) && forall other: nat :: IsListed(h, other, kind) ==> other <= pos
  }

  ghost predicate IsAbsent(h: Header, kind: u32)
    requires h.Valid()
  {
    forall other: nat :: !IsListed(h, other, kind)
  }

  /**
   The exports trie comes from the last LC_DYLD_EXPORTS_TRIE, whatever dyld-info commands there are, and
   from those only without it.
   */
  lemma TrieCommandIsPreferred(h: Header, pos: nat)
    requires h.Valid()
    ensures TrieCommand(h) == Some(pos) <==>
              || IsLatest(h, pos, LC_DYLD_EXPORTS_TRIE)
              || (IsAbsent(h, LC_DYLD_EXPORTS_TRIE) && IsLatest(h, pos, LC_DYLD_INFO))
              || (IsAbsent(h, LC_DYLD_EXPORTS_TRIE) && IsAbsent(h, LC_DYLD_INFO) && IsLatest(h, pos, LC_DYLD_INFO_ONLY))
    ensures TrieCommand(h) == None <==>
              IsAbsent(h, LC_DYLD_EXPORTS_TRIE) && IsAbsent(h, LC_DYLD_INFO) && IsAbsent(h, LC_DYLD_INFO_ONLY)
  {
    hide IsListed, LastOf;
    SelectedIsExtreme(h, LC_DYLD_EXPORTS_TRIE, pos);
    SelectedIsExtreme(h, LC_DYLD_INFO, pos);
    SelectedIsExtreme(h, LC_DYLD_INFO_ONLY, pos);
  }
}
