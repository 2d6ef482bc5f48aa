/** Bit masks to names and back. */
module NameMask {
  import opened Machine
  import opened Tokens

  // A 32-bit mask as the set of its bit positions: | is union, & is intersection, and & ~ is difference.
  type bit = x: int | 0 <= x < 32
  type Mask = set<bit>

  datatype Entry = Entry(name: string, mask: Mask)

  // NAME_MASK_FATAL, ANY_CASE, RETURN, COMMA, PIPE, NUMBER.
  datatype Flags = Flags(fatal: bool, anyCase: bool, return_: bool, comma: bool, pipe: bool, number: bool)

  datatype Result<T> = Value(value: T) | Fatal | Refused

  // ---------- names to mask ----------

  function Fold(s: string, anyCase: bool): (r: string)
    ensures |r| == |s|
  {
    if anyCase then Lower(s) else s
  }

  predicate Same(a: string, b: string, anyCase: bool) {
    Fold(a, anyCase) == Fold(b, anyCase)
  }

  /** The mask of the first entry with the name. */
  function Lookup(table: seq<Entry>, name: string, anyCase: bool): Option<Mask> {
    if table == [] then None
    else if Same(name, table[0].name, anyCase) then Some(table[0].mask)
    else Lookup(table[1..], name, anyCase)
  }

  /** The union of the masks of the known names; an unknown name is an error if the flags say so. */
  function MaskOf(table: seq<Entry>, names: seq<string>, flags: Flags): Result<Mask> {
    if names == [] then Value({})
    else match Lookup(table, names[0], flags.anyCase)
      case None => if flags.fatal then Fatal else if flags.return_ then Refused else MaskOf(table, names[1..], flags)
      case Some(m) =>
        match MaskOf(table, names[1..], flags)
        case Value(rest) => Value(m + rest)
        case error => error
  }

  /** Names compare character by character, or without regard to case. */
  lemma SameIff(a: string, b: string, anyCase: bool)
    ensures Same(a, b, anyCase) <==> if anyCase then IgnoringCase(a, b) else a == b
  {
    LowerIff(a, b);
  }

  /** Of several entries with a name the first one counts. */
  lemma {:induction false} LookupIsFirst(table: seq<Entry>, name: string, anyCase: bool, k: nat)
    requires k <= |table| && forall j :: 0 <= j < k ==> !Same(name, table[j].name, anyCase)
    requires k < |table| ==> Same(name, table[k].name, anyCase)
    ensures Lookup(table, name, anyCase) == if k < |table| then Some(table[k].mask) else None
  {
    if k > 0 {
      hide Same;
      var rest := table[1..];
      assert forall j :: 0 <= j < |rest| ==> rest[j] == table[j + 1];
      LookupIsFirst(rest, name, anyCase, k - 1);
    }
  }

  predicate Known(table: seq<Entry>, name: string, anyCase: bool) {
    Lookup(table, name, anyCase).Some?
  }

  /** Reading fails iff some name is unknown and a flag makes that an error; otherwise the result has exactly the bits of
      all the names that are known, before and behind the unknown ones. */
  lemma {:induction false} MaskOfIff(table: seq<Entry>, names: seq<string>, flags: Flags)
    ensures var unknown := exists i :: 0 <= i < |names| && !Known(table, names[i], flags.anyCase);
            && (MaskOf(table, names, flags) == Fatal <==> flags.fatal && unknown)
            && (MaskOf(table, names, flags) == Refused <==> !flags.fatal && flags.return_ && unknown)
            && (MaskOf(table, names, flags).Value? ==> forall b: bit ::
                b in MaskOf(table, names, flags).value <==>
                exists i :: 0 <= i < |names| && Known(table, names[i], flags.anyCase)
                            && b in Lookup(table, names[i], flags.anyCase).value)
  {
    if names != [] {
      hide Lookup;
      var rest := names[1..];
      MaskOfIff(table, rest, flags);
      assert forall i :: 0 <= i < |rest| ==> rest[i] == names[i + 1];
      assert forall i :: 0 < i < |names| ==> names[i] == rest[i - 1];
      assert names[0] == names[0];
    }
  }

  // ---------- mask to names ----------

  /** The entries the conversion names: those that meet a bit not named yet. */
  function Selected(table: seq<Entry>, mask: Mask): seq<Entry> {
    if table == [] || mask == {} then []
    else if mask * table[0].mask != {} then [table[0]] + Selected(table[1..], mask - table[0].mask)
    else Selected(table[1..], mask)
  }

  function Union(entries: seq<Entry>): Mask {
    if entries == [] then {} else entries[0].mask + Union(entries[1..])
  }

  /** The bits no entry of the table has. */
  function Unknown(table: seq<Entry>, mask: Mask): Mask {
    mask - Union(table)
  }

  /** The mask as an unsigned number. */
  function NumberFrom(mask: Mask, i: nat): nat
    decreases 32 - i
  {
    if i >= 32 then 0 else (if i in mask then 1 else 0) + 2 * NumberFrom(mask, i + 1)
  }

  function Names(entries: seq<Entry>): (r: seq<string>)
    ensures |r| == |entries|
  {
    seq(|entries|, i requires 0 <= i < |entries| => entries[i].name)
  }

  function Delimiter(flags: Flags): char {
    if flags.comma then ',' else if flags.pipe then '|' else ' '
  }

  function HexDigits(n: nat): string {
    if n < 16 then ["0123456789abcdef"[n]] else HexDigits(n / 16) + ["0123456789abcdef"[n % 16]]
  }

  function HexValue(c: char): nat {
    if '0' <= c <= '9' then c as int - '0' as int else if 'a' <= c <= 'f' then c as int - 'a' as int + 10 else 0
  }

  function ReadHex(s: string): nat {
    if s == "" then 0 else 16 * ReadHex(s[..|s| - 1]) + HexValue(s[|s| - 1])
  }

  lemma HexDigitsRead(n: nat)
    requires n < 16
    ensures HexValue("0123456789abcdef"[n]) == n
  {
  }

  /** The printed number reads back. */
  lemma {:induction false} NumberReadsBack(n: nat)
    ensures ReadHex(HexDigits(n)) == n
  {
    if n < 16 {
      HexDigitsRead(n);
      assert HexDigits(n)[..0] == "";
    } else {
      NumberReadsBack(n / 16);
      HexDigitsRead(n % 16);
      assert HexDigits(n)[..|HexDigits(n)| - 1] == HexDigits(n / 16);
    }
  }

  /** Bit i of the number of a mask from position i on is the bit of the mask. */
  lemma NumberBits(mask: Mask, i: nat)
    requires i < 32
    ensures NumberFrom(mask, i) % 2 == (if i in mask then 1 else 0)
    ensures NumberFrom(mask, i) / 2 == NumberFrom(mask, i + 1)
    ensures NumberFrom(mask, 32) == 0
  {
  }

  function TextOf(table: seq<Entry>, mask: Mask, flags: Flags): Result<string> {
    var names, unknown := Names(Selected(table, mask)), Unknown(table, mask);
    if unknown == {} then Value(Join(names, Delimiter(flags)))
    else if flags.fatal then Fatal
    else if flags.return_ then Refused
    else if flags.number then Value(Join(names + ["0x" + HexDigits(NumberFrom(unknown, 0))], Delimiter(flags)))
    else Value(Join(names, Delimiter(flags)))
  }

  // ---------- round trip ----------

  /** The names of the table can be told apart, and be recognised in a list. */
  ghost predicate Readable(table: seq<Entry>, delims: string, anyCase: bool) {
    && (forall i :: 0 <= i < |table| ==> table[i].name != [] && DelimiterFree(table[i].name, delims))
    && (forall i, j :: 0 <= i < j < |table| ==> !Same(table[i].name, table[j].name, anyCase))
  }

  lemma {:induction false} LookupOwnName(table: seq<Entry>, delims: string, anyCase: bool, i: nat)
    requires Readable(table, delims, anyCase) && i < |table|
    ensures Lookup(table, table[i].name, anyCase) == Some(table[i].mask)
  {
    if i > 0 {
      assert !Same(table[0].name, table[i].name, anyCase);
      var rest := table[1..];
      assert forall k :: 0 <= k < |rest| ==> rest[k] == table[k + 1];
      LookupOwnName(rest, delims, anyCase, i - 1);
    }
  }

  lemma {:induction false} SelectedFromTable(table: seq<Entry>, mask: Mask)
    ensures forall i :: 0 <= i < |Selected(table, mask)| ==> Selected(table, mask)[i] in table
  {
    if table != [] && mask != {} {
      SelectedFromTable(table[1..], mask - table[0].mask);
      SelectedFromTable(table[1..], mask);
    }
  }

  lemma {:induction false} MaskOfEntries(table: seq<Entry>, entries: seq<Entry>, delims: string, flags: Flags)
    requires Readable(table, delims, flags.anyCase) && forall i :: 0 <= i < |entries| ==> entries[i] in table
    ensures MaskOf(table, Names(entries), flags) == Value(Union(entries))
  {
    if entries != [] {
      var k :| 0 <= k < |table| && table[k] == entries[0];
      LookupOwnName(table, delims, flags.anyCase, k);
      assert Names(entries)[1..] == Names(entries[1..]);
      MaskOfEntries(table, entries[1..], delims, flags);
    }
  }

  lemma {:induction false} InUnion(entries: seq<Entry>, e: Entry)
    requires e in entries
    ensures e.mask <= Union(entries)
  {
    if e != entries[0] {
      InUnion(entries[1..], e);
    }
  }

  lemma Minus(mask: Mask, m: Mask, x: Mask)
    ensures mask - (m + x) == mask - m - x
    ensures mask * m == {} ==> mask - m == mask
  {
    if mask * m == {} {
      forall b | b in mask ensures b in mask - m {
        assert b !in mask * m;
      }
    }
  }

  /** The selected entries cover every bit of the mask that the table covers. */
  lemma {:induction false} SelectedCovers(table: seq<Entry>, mask: Mask)
    ensures mask - Union(Selected(table, mask)) == Unknown(table, mask)
  {
    if table == [] || mask == {} {
      assert mask - Union(Selected(table, mask)) == mask;
    } else {
      var m, rest := table[0].mask, table[1..];
      Minus(mask, m, Union(rest));
      if mask * m != {} {
        var sel := Selected(rest, mask - m);
        SelectedCovers(rest, mask - m);
        assert Union([table[0]] + sel) == m + Union(sel) by {
          assert ([table[0]] + sel)[1..] == sel;
        }
        Minus(mask, m, Union(sel));
      } else {
        SelectedCovers(rest, mask);
      }
    }
  }

  /** Entry k has a bit of the mask that no earlier entry has: the walk over the table meets it. */
  predicate Meets(table: seq<Entry>, mask: Mask, k: nat)
    requires k < |table|
  {
    table[k].mask * (mask - Union(table[..k])) != {}
  }

  /** No entry that the walk meets has a bit outside the mask. */
  ghost predicate MeetsOnlyWithin(table: seq<Entry>, mask: Mask, bound: Mask) {
    forall k :: 0 <= k < |table| && Meets(table, mask, k) ==> table[k].mask <= bound
  }

  lemma MeetsShift(table: seq<Entry>, mask: Mask, k: nat)
    requires k + 1 < |table|
    ensures Meets(table, mask, k + 1) <==> Meets(table[1..], mask - table[0].mask, k)
  {
    var m, tail := table[0].mask, table[1..][..k];
    assert Union(table[..k + 1]) == m + Union(tail) by {
      assert table[..k + 1][1..] == tail;
    }
    Minus(mask, m, Union(tail));
  }

  lemma MeetsWithinShift(table: seq<Entry>, mask: Mask, bound: Mask)
    requires table != []
    ensures MeetsOnlyWithin(table, mask, bound) <==>
      (table[0].mask * mask == {} || table[0].mask <= bound) && MeetsOnlyWithin(table[1..], mask - table[0].mask, bound)
  {
    var rest := table[1..];
    forall k | 0 <= k < |rest| ensures rest[k] == table[k + 1] {
    }
    forall k | 0 <= k < |rest| ensures Meets(table, mask, k + 1) <==> Meets(rest, mask - table[0].mask, k) {
      MeetsShift(table, mask, k);
    }
    assert Meets(table, mask, 0) <==> table[0].mask * mask != {} by {
      assert table[..0] == [] && mask - Union([]) == mask;
    }
    if MeetsOnlyWithin(table, mask, bound) {
      forall k | 0 <= k < |rest| && Meets(rest, mask - table[0].mask, k) ensures rest[k].mask <= bound {
        assert Meets(table, mask, k + 1);
      }
    }
    if (table[0].mask * mask == {} || table[0].mask <= bound) && MeetsOnlyWithin(rest, mask - table[0].mask, bound) {
      forall k | 0 <= k < |table| && Meets(table, mask, k) ensures table[k].mask <= bound {
        if k > 0 {
          assert Meets(rest, mask - table[0].mask, k - 1);
        }
      }
    }
  }

  /** The entries that are named are those that the walk meets. */
  lemma {:induction false} SelectedIsMet(table: seq<Entry>, mask: Mask, bound: Mask)
    ensures Union(Selected(table, mask)) <= bound <==> MeetsOnlyWithin(table, mask, bound)
  {
    hide Meets;
    if table == [] {
    } else if mask == {} {
      NothingMet(table, bound);
    } else {
      var m, rest := table[0].mask, table[1..];
      MeetsWithinShift(table, mask, bound);
      SelectedIsMet(rest, mask - m, bound);
      assert mask * m == m * mask;
      if mask * m != {} {
        assert Union([table[0]] + Selected(rest, mask - m)) == m + Union(Selected(rest, mask - m)) by {
          assert ([table[0]] + Selected(rest, mask - m))[1..] == Selected(rest, mask - m);
        }
      } else {
        Minus(mask, m, {});
      }
    }
  }

  lemma NothingMet(table: seq<Entry>, bound: Mask)
    ensures MeetsOnlyWithin(table, {}, bound)
  {
    forall k | 0 <= k < |table| ensures !Meets(table, {}, k) {
      assert {} - Union(table[..k]) == {};
    }
  }

  lemma {:induction false} UnionWithin(entries: seq<Entry>, mask: Mask)
    ensures Union(entries) <= mask <==> forall i :: 0 <= i < |entries| ==> entries[i].mask <= mask
  {
    if entries != [] {
      UnionWithin(entries[1..], mask);
      assert forall i :: 0 < i < |entries| ==> entries[i] == entries[1..][i - 1];
    }
  }

  /** Whatever the names are, only bits that the table knows are read. */
  lemma {:induction false} ReadsKnownBits(table: seq<Entry>, names: seq<string>, flags: Flags)
    ensures var r := MaskOf(table, names, flags); r.Value? ==> r.value <= Union(table)
  {
    if names != [] {
      ReadsKnownBits(table, names[1..], flags);
      LookupKnownBits(table, names[0], flags.anyCase);
    }
  }

  lemma {:induction false} LookupKnownBits(table: seq<Entry>, name: string, anyCase: bool)
    ensures var r := Lookup(table, name, anyCase); r.Some? ==> r.value <= Union(table)
  {
    if table != [] {
      LookupKnownBits(table[1..], name, anyCase);
    }
  }

  /** A mask is written as names and read back as the same mask. */
  ghost predicate ComesBack(table: seq<Entry>, mask: Mask, flags: Flags, delims: string, back: Flags) {
    var text := TextOf(table, mask, flags);
    text.Value? && MaskOf(table, Split(text.value, delims), back) == Value(mask)
  }

  /** A mask with a bit that the table does not know never comes back. */
  lemma UnknownBitsAreLost(table: seq<Entry>, mask: Mask, flags: Flags, delims: string, back: Flags)
    requires Unknown(table, mask) != {}
    ensures !ComesBack(table, mask, flags, delims, back)
  {
    var text := TextOf(table, mask, flags);
    if text.Value? {
      ReadsKnownBits(table, Split(text.value, delims), back);
      var b :| b in Unknown(table, mask);
      assert b in mask && b !in Union(table);
    }
  }

  lemma SelectedReadable(table: seq<Entry>, mask: Mask, delims: string, anyCase: bool)
    requires Readable(table, delims, anyCase)
    ensures AreWords(Names(Selected(table, mask)), delims)
  {
    var sel := Selected(table, mask);
    SelectedFromTable(table, mask);
    forall i | 0 <= i < |sel| ensures Names(sel)[i] != [] && DelimiterFree(Names(sel)[i], delims) {
      var k :| 0 <= k < |table| && table[k] == sel[i];
    }
  }

  /** What comes back: the union of the masks of all entries that were named. */
  lemma ComesBackAsUnion(table: seq<Entry>, mask: Mask, flags: Flags, delims: string, back: Flags)
    requires Readable(table, delims, back.anyCase) && Delimiter(flags) in delims && Unknown(table, mask) == {}
    ensures TextOf(table, mask, flags).Value?
    ensures MaskOf(table, Split(TextOf(table, mask, flags).value, delims), back) == Value(Union(Selected(table, mask)))
  {
    var sel := Selected(table, mask);
    SelectedFromTable(table, mask);
    SelectedReadable(table, mask, delims, back.anyCase);
    SplitJoin(Names(sel), Delimiter(flags), delims);
    MaskOfEntries(table, sel, delims, back);
  }

  /** For a readable table: a mask comes back iff the table knows all its bits and no entry that is met has a bit
      outside it. A mask of known bits loses none in any case. */
  lemma RoundTripIff(table: seq<Entry>, mask: Mask, flags: Flags, delims: string, back: Flags)
    requires Readable(table, delims, back.anyCase) && Delimiter(flags) in delims
    ensures ComesBack(table, mask, flags, delims, back) <==>
      Unknown(table, mask) == {} && MeetsOnlyWithin(table, mask, mask)
    ensures Unknown(table, mask) == {} ==>
      TextOf(table, mask, flags).Value?
      && var r := MaskOf(table, Split(TextOf(table, mask, flags).value, delims), back); r.Value? && mask <= r.value
  {
    if Unknown(table, mask) != {} {
      UnknownBitsAreLost(table, mask, flags, delims, back);
    } else {
      hide TextOf;
      hide MaskOf;
      ComesBackAsUnion(table, mask, flags, delims, back);
      SelectedCovers(table, mask);
      SelectedIsMet(table, mask, mask);
      var read := Union(Selected(table, mask));
      forall b | b in mask ensures b in read {
        assert b !in Unknown(table, mask);
      }
      assert read <= mask <==> read == mask;
    }
  }

  /** What a list of one name reads as. */
  lemma ReadOne(table: seq<Entry>, text: string, flags: Flags, mask: Mask)
    requires mask != {}
    ensures MaskOf(table, [text], flags) == Value(mask) <==> Lookup(table, text, flags.anyCase) == Some(mask)
    ensures Lookup(table, text, flags.anyCase) == None ==>
      MaskOf(table, [text], flags) == if flags.fatal then Fatal else if flags.return_ then Refused else Value({})
  {
    assert [text][1..] == [];
    match Lookup(table, text, flags.anyCase)
    case None =>
    case Some(m) => assert m + {} == m;
  }

  lemma OneEntry(e: Entry, mask: Mask)
    requires mask != {} && mask <= e.mask
    ensures Selected([e], mask) == [e] && Names([e]) == [e.name] && Union([e]) == e.mask
  {
    assert mask * e.mask == mask && mask - e.mask == {};
    assert [e][1..] == [];
    assert Union([e]) == e.mask + {};
  }

  /** An entry wider than the mask adds its bits: one bit goes in and two come back. */
  lemma WideEntryAddsBits(flags: Flags, back: Flags)
    ensures var table := [Entry("both", {0, 1})];
            && TextOf(table, {0}, flags) == Value("both")
            && MaskOf(table, Split("both", ", \t\r\n"), back) == Value({0, 1})
  {
    var e := Entry("both", {0, 1});
    OneEntry(e, {0});
    SplitJoin(["both"], ' ', ", \t\r\n");
    LookupFirst([e], e.name, back.anyCase);
    ReadOne([e], "both", back, e.mask);
  }

  lemma LookupFirst(table: seq<Entry>, name: string, anyCase: bool)
    requires table != [] && table[0].name == name
    ensures Lookup(table, name, anyCase) == Some(table[0].mask)
  {
  }

  // ---------- a delimiter that the reader does not know ----------

  /** The text is the name of an entry that stands for the mask. */
  ghost predicate IsNameOf(table: seq<Entry>, mask: Mask, text: string, anyCase: bool) {
    exists k :: 0 <= k < |table| && Same(text, table[k].name, anyCase) && table[k].mask == mask
  }

  lemma {:induction false} LookupIs(table: seq<Entry>, name: string, anyCase: bool, m: Mask)
    requires forall i, j :: 0 <= i < j < |table| ==> !Same(table[i].name, table[j].name, anyCase)
    ensures Lookup(table, name, anyCase) == Some(m) <==> IsNameOf(table, m, name, anyCase)
  {
    if table != [] {
      var rest := table[1..];
      assert forall k :: 0 <= k < |rest| ==> rest[k] == table[k + 1];
      LookupIs(rest, name, anyCase, m);
      if Same(name, table[0].name, anyCase) {
        forall k | 0 < k < |table| ensures !Same(name, table[k].name, anyCase) {
          assert !Same(table[0].name, table[k].name, anyCase);
        }
      } else if IsNameOf(table, m, name, anyCase) {
        var k :| 0 <= k < |table| && Same(name, table[k].name, anyCase) && table[k].mask == m;
        assert rest[k - 1] == table[k];
      }
    }
  }

  /** With a delimiter that the reader does not know, the text is read as one name, or as nothing. */
  lemma UnknownDelimiterIff(table: seq<Entry>, mask: Mask, flags: Flags, delims: string, back: Flags)
    requires Readable(table, delims, back.anyCase) && Delimiter(flags) !in delims
    ensures ComesBack(table, mask, flags, delims, back) <==>
      mask == {} || IsNameOf(table, mask, Join(Names(Selected(table, mask)), Delimiter(flags)), back.anyCase)
  {
    var names := Names(Selected(table, mask));
    var text := Join(names, Delimiter(flags));
    SelectedReadable(table, mask, delims, back.anyCase);
    SplitUnknown(names, Delimiter(flags), delims);
    LookupIs(table, text, back.anyCase, mask);
    SelectedCovers(table, mask);
    if Unknown(table, mask) != {} {
      UnknownBitsAreLost(table, mask, flags, delims, back);
      forall k | 0 <= k < |table| ensures table[k].mask != mask {
        InUnion(table, table[k]);
      }
    } else if mask == {} {
      assert names == [];
    } else {
      assert Selected(table, mask) != [];
      ReadOne(table, text, back, mask);
    }
  }

  /** The first entry that shares a bit with the mask is the mask itself. */
  ghost predicate FirstMetIsWhole(table: seq<Entry>, mask: Mask) {
    exists k :: 0 <= k < |table| && table[k].mask == mask && forall j :: 0 <= j < k ==> table[j].mask * mask == {}
  }

  lemma {:induction false} SoleSelected(table: seq<Entry>, mask: Mask)
    requires mask != {}
    ensures FirstMetIsWhole(table, mask) <==> Selected(table, mask) != [] && Selected(table, mask)[0].mask == mask
    ensures FirstMetIsWhole(table, mask) ==> |Selected(table, mask)| == 1
  {
    if table != [] {
      var m, rest := table[0].mask, table[1..];
      assert mask * m == m * mask;
      assert forall k :: 0 <= k < |rest| ==> rest[k] == table[k + 1];
      if mask * m == {} {
        SoleSelected(rest, mask);
        if FirstMetIsWhole(rest, mask) {
          var k :| 0 <= k < |rest| && rest[k].mask == mask && forall j :: 0 <= j < k ==> rest[j].mask * mask == {};
          assert forall j :: 0 < j <= k ==> table[j] == rest[j - 1];
          assert table[k + 1].mask == mask;
        }
        if FirstMetIsWhole(table, mask) {
          var k :| 0 <= k < |table| && table[k].mask == mask && forall j :: 0 <= j < k ==> table[j].mask * mask == {};
          assert mask * mask == mask;
          assert rest[k - 1].mask == mask;
        }
      } else {
        assert m == mask ==> mask - m == {};
      }
    }
  }

  lemma FoldKeeps(a: string, b: string, c: char, anyCase: bool)
    requires Same(a, b, anyCase) && c in a && LowerCase(c) == c && !('a' <= c <= 'z')
    ensures c in b
  {
    var p :| 0 <= p < |a| && a[p] == c;
    assert |Fold(a, anyCase)| == |Fold(b, anyCase)|;
    assert Fold(a, anyCase)[p] == Fold(b, anyCase)[p];
    assert b[p] == c;
  }

  /** If no name has that delimiter in it either, exactly the masks that are written as one name come back. */
  lemma OneNameComesBack(table: seq<Entry>, mask: Mask, flags: Flags, delims: string, back: Flags)
    requires Readable(table, delims, back.anyCase) && Delimiter(flags) !in delims
    requires forall i :: 0 <= i < |table| ==> Delimiter(flags) !in table[i].name
    ensures ComesBack(table, mask, flags, delims, back) <==> mask == {} || FirstMetIsWhole(table, mask)
  {
    UnknownDelimiterIff(table, mask, flags, delims, back);
    if mask != {} {
      var sel, sep := Selected(table, mask), Delimiter(flags);
      var text := Join(Names(sel), sep);
      SelectedReadable(table, mask, delims, back.anyCase);
      SelectedFromTable(table, mask);
      JoinIsFree(Names(sel), sep, delims);
      SoleSelected(table, mask);
      if FirstMetIsWhole(table, mask) {
        var k :| 0 <= k < |table| && table[k] == sel[0];
        assert text == table[k].name;
      }
      if k :| 0 <= k < |table| && table[k].mask == mask && Same(text, table[k].name, back.anyCase) {
        if |sel| > 1 {
          FoldKeeps(text, table[k].name, sep, back.anyCase);
        } else {
          assert |Fold(text, back.anyCase)| == |Fold(table[k].name, back.anyCase)|;
          assert text != [] && |sel| == 1;
          var i :| 0 <= i < |table| && table[i] == sel[0];
          assert text == table[i].name;
          assert i == k;
        }
      }
    }
  }

  lemma TwoEntries(a: Entry, b: Entry)
    requires a.mask != {} && b.mask != {} && a.mask !! b.mask
    ensures Selected([a, b], a.mask + b.mask) == [a, b] && Unknown([a, b], a.mask + b.mask) == {}
    ensures Names([a, b]) == [a.name, b.name]
  {
    var mask := a.mask + b.mask;
    OneEntry(b, b.mask);
    assert [a, b][1..] == [b];
    assert mask * a.mask == a.mask && mask - a.mask == b.mask;
    assert Union([a, b]) == a.mask + Union([b]);
  }

  lemma {:induction false} NoSuchName(table: seq<Entry>, name: string, anyCase: bool)
    requires forall i :: 0 <= i < |table| ==> |table[i].name| != |name|
    ensures Lookup(table, name, anyCase) == None
  {
    if table != [] {
      assert |Fold(name, anyCase)| != |Fold(table[0].name, anyCase)|;
      NoSuchName(table[1..], name, anyCase);
    }
  }

  /** The pipe flag with the reader's usual delimiters: two names are written and none is read. */
  lemma PipeLosesTheMask(back: Flags)
    ensures var table := [Entry("a", {0}), Entry("b", {1})];
            var flags := Flags(false, false, false, false, true, false);
            && TextOf(table, {0, 1}, flags) == Value("a|b")
            && Split("a|b", ", \t\r\n") == ["a|b"]
            && MaskOf(table, ["a|b"], back) == (if back.fatal then Fatal else if back.return_ then Refused else Value({}))
  {
    var a, b := Entry("a", {0}), Entry("b", {1});
    hide MaskOf;
    hide Lookup;
    hide Selected;
    hide Split;
    TwoEntries(a, b);
    assert {0, 1} == a.mask + b.mask;
    assert ["a", "b"][1..] == ["b"] && Join(["a", "b"], '|') == "a|b";
    SplitUnknown(["a", "b"], '|', ", \t\r\n");
    NoSuchName([a, b], "a|b", back.anyCase);
    ReadOne([a, b], "a|b", back, {0, 1});
  }

  /** The delimiter: a comma if the flags say so, otherwise a pipe if they say so, otherwise a space. */
  lemma TwoNames(flags: Flags)
    ensures TextOf([Entry("a", {0}), Entry("b", {1})], {0, 1}, flags)
         == Value(if flags.comma then "a,b" else if flags.pipe then "a|b" else "a b")
  {
    var a, b := Entry("a", {0}), Entry("b", {1});
    TwoEntries(a, b);
    hide Selected;
    hide Unknown;
    assert {0, 1} == a.mask + b.mask;
    assert ["a", "b"][1..] == ["b"];
    assert Join(["a", "b"], Delimiter(flags)) == "a" + [Delimiter(flags)] + "b";
    assert "a,b" == "a" + [','] + "b" && "a|b" == "a" + ['|'] + "b" && "a b" == "a" + [' '] + "b";
  }

  lemma {:induction false} HexIsFree(n: nat, delims: string)
    requires forall c :: c in delims ==> c !in "0123456789abcdefx"
    ensures HexDigits(n) != [] && DelimiterFree(HexDigits(n), delims)
  {
    if n >= 16 {
      HexIsFree(n / 16, delims);
    }
    assert "0123456789abcdef"[n % 16] in "0123456789abcdefx";
  }

  /** Where unknown bits are printed, the text splits into the names and one more token, which is "0x" and the number of
      exactly the unknown bits. */
  lemma UnknownBitsArePrinted(table: seq<Entry>, mask: Mask, flags: Flags, delims: string, anyCase: bool)
    requires Readable(table, delims, anyCase) && Delimiter(flags) in delims && Unknown(table, mask) != {}
    requires !flags.fatal && !flags.return_ && flags.number && forall c :: c in delims ==> c !in "0123456789abcdefx"
    ensures var text, names := TextOf(table, mask, flags), Names(Selected(table, mask));
            && text.Value? && |Split(text.value, delims)| == |names| + 1
            && Split(text.value, delims)[..|names|] == names
            && var token := Split(text.value, delims)[|names|];
               && "0x" <= token && ReadHex(token[2..]) == NumberFrom(Unknown(table, mask), 0)
  {
    var names, n := Names(Selected(table, mask)), NumberFrom(Unknown(table, mask), 0);
    var token := "0x" + HexDigits(n);
    SelectedReadable(table, mask, delims, anyCase);
    HexIsFree(n, delims);
    assert token[2..] == HexDigits(n);
    NumberReadsBack(n);
    hide HexDigits;
    hide ReadHex;
    hide Split;
    assert DelimiterFree(token, delims) by {
      assert '0' in "0123456789abcdefx" && 'x' in "0123456789abcdefx";
    }
    SplitJoin(names + [token], Delimiter(flags), delims);
    assert (names + [token])[..|names|] == names;
  }

  /** Unknown bits are an error if the flags say so, and are dropped if they do not say anything. */
  lemma UnknownBits(table: seq<Entry>, mask: Mask, flags: Flags, delims: string, anyCase: bool)
    requires Readable(table, delims, anyCase) && Delimiter(flags) in delims
    ensures TextOf(table, mask, flags) == Fatal <==> flags.fatal && !(mask <= Union(table))
    ensures TextOf(table, mask, flags) == Refused <==> !flags.fatal && flags.return_ && !(mask <= Union(table))
    ensures TextOf(table, mask, flags).Value? && (!flags.number || mask <= Union(table)) ==>
      Split(TextOf(table, mask, flags).value, delims) == Names(Selected(table, mask))
  {
    if Unknown(table, mask) == {} {
      forall b | b in mask ensures b in Union(table) {
        assert b !in Unknown(table, mask);
      }
    }
    SelectedReadable(table, mask, delims, anyCase);
    SplitJoin(Names(Selected(table, mask)), Delimiter(flags), delims);
    hide Unknown;
    hide Union;
    hide Split;
  }

  // ---------- disjoint masks ----------

  ghost predicate DisjointMasks(table: seq<Entry>) {
    forall i, j :: 0 <= i < j < |table| ==> table[i].mask !! table[j].mask
  }

  lemma {:induction false} UnionMeets(entries: seq<Entry>, b: bit) returns (e: Entry)
    requires b in Union(entries)
    ensures e in entries && b in e.mask
  {
    if b in entries[0].mask {
      e := entries[0];
    } else {
      e := UnionMeets(entries[1..], b);
    }
  }

  lemma MetIsChosen(table: seq<Entry>, chosen: seq<Entry>, k: nat)
    requires DisjointMasks(table) && k < |table| && Meets(table, Union(chosen), k)
    requires forall i :: 0 <= i < |chosen| ==> chosen[i] in table
    ensures table[k] in chosen
  {
    var b :| b in table[k].mask * (Union(chosen) - Union(table[..k]));
    var e := UnionMeets(chosen, b);
    var j :| 0 <= j < |table| && table[j] == e;
    assert !(table[j].mask !! table[k].mask);
  }

  /** With pairwise disjoint masks, every union of table entries comes back exactly. */
  lemma UnionsComeBack(table: seq<Entry>, chosen: seq<Entry>, flags: Flags, delims: string, back: Flags)
    requires Readable(table, delims, back.anyCase) && Delimiter(flags) in delims && DisjointMasks(table)
    requires forall i :: 0 <= i < |chosen| ==> chosen[i] in table
    ensures ComesBack(table, Union(chosen), flags, delims, back)
  {
    var mask := Union(chosen);
    forall i | 0 <= i < |chosen| ensures chosen[i].mask <= Union(table) {
      InUnion(table, chosen[i]);
    }
    UnionWithin(chosen, Union(table));
    assert Unknown(table, mask) == {};
    forall k | 0 <= k < |table| && Meets(table, mask, k) ensures table[k].mask <= mask {
      MetIsChosen(table, chosen, k);
      InUnion(chosen, table[k]);
    }
    RoundTripIff(table, mask, flags, delims, back);
  }

  // ---------- the code ----------

  /** name_mask_delim_opt: every token is looked up in the table from the start. */
  method NameMaskDelimOpt(table: seq<Entry>, names: string, delims: string, flags: Flags) returns (r: Result<Mask>)
    ensures r == MaskOf(table, Split(names, delims), flags)
  {
    var toks := Split(names, delims);
    var result: Mask := {};
    assert toks[0..] == toks;
    MergeUnion({}, {}, MaskOf(table, toks, flags));
    for t := 0 to |toks|
      invariant MaskOf(table, toks, flags) == Merge(result, MaskOf(table, toks[t..], flags))
    {
      var name := toks[t];
      assert toks[t..][1..] == toks[t + 1..];
      var np: nat := 0;
      while np < |table| && !Same(name, table[np].name, flags.anyCase)
        invariant np <= |table| && Lookup(table, name, flags.anyCase) == Lookup(table[np..], name, flags.anyCase)
      {
        assert table[np..][1..] == table[np + 1..];
        np := np + 1;
      }
      if np == |table| {
        if flags.fatal {
          return Fatal;
        }
        if flags.return_ {
          return Refused;
        }
      } else {
        MergeUnion(result, table[np].mask, MaskOf(table, toks[t + 1..], flags));
        result := result + table[np].mask;
      }
    }
    assert result + {} == result;
    r := Value(result);
  }

  function Merge(m: Mask, r: Result<Mask>): Result<Mask> {
    match r
    case Value(v) => Value(m + v)
    case error => error
  }

  lemma MergeUnion(a: Mask, b: Mask, r: Result<Mask>)
    ensures Merge(a, Merge(b, r)) == Merge(a + b, r) && Merge({}, r) == r
  {
    if r.Value? {
      assert a + (b + r.value) == a + b + r.value;
      assert {} + r.value == r.value;
    }
  }

  /** Every name followed by the delimiter. */
  function Listed(names: seq<string>, delim: char): string {
    if names == [] then "" else names[0] + [delim] + Listed(names[1..], delim)
  }

  /** Cutting the last delimiter off the list leaves the joined names, if no name is empty. */
  lemma {:induction false} ListedIsJoined(names: seq<string>, delim: char)
    ensures names != [] ==> Listed(names, delim) == Join(names, delim) + [delim]
  {
    if |names| > 1 {
      ListedIsJoined(names[1..], delim);
    }
  }

  lemma {:induction false} ListedSnoc(names: seq<string>, name: string, delim: char)
    ensures Listed(names + [name], delim) == Listed(names, delim) + name + [delim]
  {
    if names != [] {
      assert (names + [name])[1..] == names[1..] + [name];
      ListedSnoc(names[1..], name, delim);
    } else {
      assert Listed([name][1..], delim) == "";
    }
  }

  lemma UnknownRest(table: seq<Entry>, np: nat, mask: Mask)
    requires np < |table|
    ensures Unknown(table[np..], mask) == Unknown(table[np + 1..], mask - table[np].mask)
    ensures mask * table[np].mask == {} ==> mask - table[np].mask == mask
  {
    assert table[np..][1..] == table[np + 1..];
    var m := table[np].mask;
    if mask * m == {} {
      assert forall b :: b in m ==> b !in mask || b in mask * m;
      assert mask - m == mask;
    }
  }

  lemma NamesCons(e: Entry, entries: seq<Entry>)
    ensures Names([e] + entries) == [e.name] + Names(entries)
  {
  }

  /** What is still to be named before and behind entry np. */
  lemma SelectedRest(table: seq<Entry>, np: nat, mask: Mask)
    requires np < |table| && mask != {}
    ensures Names(Selected(table[np..], mask))
         == (if mask * table[np].mask != {} then [table[np].name] else [])
            + Names(Selected(table[np + 1..], mask - table[np].mask))
  {
    var m, rest := table[np].mask, table[np + 1..];
    assert table[np..][1..] == rest;
    if mask * m != {} {
      NamesCons(table[np], Selected(rest, mask - m));
    } else {
      UnknownRest(table, np, mask);
      assert [] + Names(Selected(rest, mask)) == Names(Selected(rest, mask));
    }
  }

  /** The walk has written `names` and still has to name what is left of the mask from entry np on. */
  ghost predicate Walking(table: seq<Entry>, np: nat, mask0: Mask, mask: Mask, names: seq<string>, buf: string, delim: char) {
    && np <= |table|
    && buf == Listed(names, delim)
    && Names(Selected(table, mask0)) == names + Names(Selected(table[np..], mask))
    && Unknown(table, mask0) == Unknown(table[np..], mask)
  }

  lemma WalkStep(table: seq<Entry>, np: nat, mask0: Mask, mask: Mask, names: seq<string>, buf: string, delim: char)
    requires Walking(table, np, mask0, mask, names, buf, delim) && mask != {} && np < |table|
    ensures var e := table[np];
            if mask * e.mask != {}
            then Walking(table, np + 1, mask0, mask - e.mask, names + [e.name], buf + e.name + [delim], delim)
            else Walking(table, np + 1, mask0, mask, names, buf, delim)
  {
    hide Selected;
    hide Unknown;
    hide Names;
    hide Listed;
    var e := table[np];
    var later := Names(Selected(table[np + 1..], mask - e.mask));
    UnknownRest(table, np, mask);
    SelectedRest(table, np, mask);
    if mask * e.mask != {} {
      ListedSnoc(names, e.name, delim);
      assert names + ([e.name] + later) == names + [e.name] + later;
    } else {
      assert names + ([] + later) == names + later;
    }
  }

  lemma WalkStart(table: seq<Entry>, mask: Mask, delim: char)
    ensures Walking(table, 0, mask, mask, [], "", delim)
  {
    assert table[0..] == table;
    assert [] + Names(Selected(table, mask)) == Names(Selected(table, mask));
  }

  lemma WalkEnd(table: seq<Entry>, np: nat, mask0: Mask, mask: Mask, names: seq<string>, buf: string, delim: char)
    requires Walking(table, np, mask0, mask, names, buf, delim) && (mask == {} || np == |table|)
    ensures buf == Listed(Names(Selected(table, mask0)), delim) && mask == Unknown(table, mask0)
  {
    assert Selected(table[np..], mask) == [];
    assert names + [] == names;
    assert Unknown(table[np..], mask) == mask;
  }

  /** The loop of str_name_mask_opt over the table, until no bit is left or the table ends. */
  method WalkTable(table: seq<Entry>, mask0: Mask, delim: char) returns (buf: string, mask: Mask)
    ensures buf == Listed(Names(Selected(table, mask0)), delim)
    ensures mask == Unknown(table, mask0)
  {
    hide *;
    buf, mask := "", mask0;
    ghost var names: seq<string> := [];
    var np: nat := 0;
    WalkStart(table, mask0, delim);
    while mask != {} && np < |table|
      invariant np <= |table| && Walking(table, np, mask0, mask, names, buf, delim)
      decreases |table| - np
    {
      WalkStep(table, np, mask0, mask, names, buf, delim);
      if mask * table[np].mask != {} {
        mask := mask - table[np].mask;
        names := names + [table[np].name];
        buf := buf + table[np].name + [delim];
      }
      np := np + 1;
    }
    WalkEnd(table, np, mask0, mask, names, buf, delim);
  }

  /** str_name_mask_opt: bits that the table does not know are an error, or are printed, or are dropped. */
  method StrNameMaskOpt(table: seq<Entry>, mask0: Mask, flags: Flags) returns (r: Result<string>)
    ensures r == TextOf(table, mask0, flags)
  {
    var delim := Delimiter(flags);
    ghost var names := Names(Selected(table, mask0));
    var buf, mask := WalkTable(table, mask0, delim);
    if mask != {} {
      if flags.fatal {
        return Fatal;
      } else if flags.return_ {
        return Refused;
      } else if flags.number {
        var number := "0x" + HexDigits(NumberFrom(mask, 0));
        ListedSnoc(names, number, delim);
        names := names + [number];
        buf := buf + number + [delim];
      }
    }
    ListedIsJoined(names, delim);
    if |buf| > 0 {
      buf := buf[..|buf| - 1];
    }
    return Value(buf);
  }
}
