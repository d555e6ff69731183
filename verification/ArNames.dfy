/** The extended name table (bfd/archive.c): built in two passes by the writer, rewritten in place by the reader. */
module ArNames {
  import opened Bytes
  import opened ArHeader

  // What the table holds ----------------------------------------------------

  /** Member i gets a table entry of its own: a long name, or in a thin archive a path that is not the previous one. */
  predicate OwnEntry(t: Target, thin: bool, files: seq<seq<byte>>, normal: seq<byte> -> seq<byte>, i: nat)
    requires i < |files|
  {
    if thin then i == 0 || files[i] != files[i - 1] else |normal(files[i])| > t.maxName
  }

  function Entry(t: Target, name: seq<byte>): seq<byte> {
    name + (if t.style == Svr4 then [SLASH] else []) + [NEWLINE]
  }

  /** The table of the first n members. */
  function Table(t: Target, thin: bool, files: seq<seq<byte>>, normal: seq<byte> -> seq<byte>, n: nat): seq<byte>
    requires n <= |files|
  {
    if n == 0 then []
    else Table(t, thin, files, normal, n - 1)
         + if OwnEntry(t, thin, files, normal, n - 1) then Entry(t, normal(files[n - 1])) else []
  }

  /** Where the table entry used by member i starts. */
  function EntryOffset(t: Target, thin: bool, files: seq<seq<byte>>, normal: seq<byte> -> seq<byte>, i: nat): nat
    requires i < |files|
  {
    if i == 0 || OwnEntry(t, thin, files, normal, i) then |Table(t, thin, files, normal, i)|
    else EntryOffset(t, thin, files, normal, i - 1)
  }

  lemma {:induction false} TablePrefix(t: Target, thin: bool, files: seq<seq<byte>>, normal: seq<byte> -> seq<byte>,
      n: nat, m: nat)
    requires n <= m <= |files|
    ensures Table(t, thin, files, normal, n) <= Table(t, thin, files, normal, m)
  {
    if n < m { TablePrefix(t, thin, files, normal, n, m - 1); }
  }

  /** Every member that uses the table finds its own normalised name as the entry at its offset. */
  lemma {:induction false} EntryAtOffset(t: Target, thin: bool, files: seq<seq<byte>>, normal: seq<byte> -> seq<byte>,
      i: nat)
    requires i < |files| && (thin || OwnEntry(t, thin, files, normal, i))
    ensures var off, tab := EntryOffset(t, thin, files, normal, i), Table(t, thin, files, normal, |files|);
      off + |Entry(t, normal(files[i]))| <= |tab| && tab[off..off + |Entry(t, normal(files[i]))|] ==
        Entry(t, normal(files[i]))
  {
    if OwnEntry(t, thin, files, normal, i) {
      var e := Entry(t, normal(files[i]));
      var before := Table(t, thin, files, normal, i);
      TablePrefix(t, thin, files, normal, i + 1, |files|);
      assert Table(t, thin, files, normal, i + 1) == before + e;
    } else {
      EntryAtOffset(t, thin, files, normal, i - 1);
    }
  }

  function Overlay(field: seq<byte>, s: seq<byte>): (r: seq<byte>)
    requires |s| <= |field|
    ensures |r| == |field|
  {
    s + field[|s|..]
  }

  /** The name field of a member whose (possibly truncated) name stays in its header. */
  function FixedField(t: Target, field: seq<byte>, name: seq<byte>): (r: seq<byte>)
    requires |field| == NAMELEN && |name| <= NAMELEN
    ensures |r| == NAMELEN
  {
    Overlay(field, name + if |name| < NAMELEN then [t.pad] else [])
  }

  function IndexField(t: Target, field: seq<byte>, off: nat): (r: seq<byte>)
    requires |field| == NAMELEN && ValidTarget(t)
    ensures |r| == NAMELEN
  {
    Overlay(field, [t.pad] + PadTo(Decimal(off), t.maxName - 1))
  }

  function Min(a: nat, b: nat): (r: nat)
    ensures r <= a && r <= b
  {
    if a < b then a else b
  }

  /** The name field of member i after the table is built over headers that held `fields`. */
  function FieldAfter(t: Target, thin: bool, files: seq<seq<byte>>, normal: seq<byte> -> seq<byte>,
                      fields: seq<seq<byte>>, i: nat): seq<byte>
    requires ValidTarget(t) && i < |files| == |fields| && |fields[i]| == NAMELEN
  {
    if thin || OwnEntry(t, thin, files, normal, i) then
      IndexField(t, fields[i], EntryOffset(t, thin, files, normal, i))
    else FixedField(t, fields[i], normal(files[i]))
  }

  // The writer --------------------------------------------------------------

  /** Rewrite a header's name field unless it already holds the name in normal format. */
  method FixShortName(t: Target, field: seq<byte>, name: seq<byte>) returns (r: seq<byte>)
    requires ValidTarget(t) && |field| == NAMELEN && |name| <= t.maxName
    ensures r == FixedField(t, field, name)
  {
    r := field;
    if field[..|name|] != name || (|name| < NAMELEN && field[|name|] != t.pad) {
      r := name + field[|name|..];
      if |name| < t.maxName || (|name| == t.maxName && |name| < NAMELEN) {
        r := r[|name| := t.pad];
      }
    }
  }

  /** First pass of _bfd_construct_extended_name_table: the table's length, and short names put back in headers. */
  method SizeTable(t: Target, thin: bool, traditional: bool, files: seq<seq<byte>>, normal: seq<byte> -> seq<byte>,
                   fields: array<seq<byte>>) returns (total: nat)
    requires ValidTarget(t) && fields.Length == |files|
    requires forall i :: 0 <= i < fields.Length ==> |fields[i]| == NAMELEN
    modifies fields
    ensures thin || !traditional ==> total == |Table(t, thin, files, normal, |files|)|
    ensures !thin && traditional ==> total == 0
    ensures forall i :: 0 <= i < |files| ==>
      if !thin && (traditional || !OwnEntry(t, thin, files, normal, i)) then
        fields[i] == FixedField(t, old(fields[i]), normal(files[i])[..Min(|normal(files[i])|, t.maxName)])
      else fields[i] == old(fields[i])
  {
    total := 0;
    var last: Option<seq<byte>> := None;
    for i := 0 to |files|
      invariant last == if thin && i > 0 then Some(files[i - 1]) else None
      invariant thin || !traditional ==> total == |Table(t, thin, files, normal, i)|
      invariant !thin && traditional ==> total == 0
      invariant forall k :: i <= k < |files| ==> fields[k] == old(fields[k])
      invariant forall k :: 0 <= k < i ==>
        if !thin && (traditional || !OwnEntry(t, thin, files, normal, k)) then
          fields[k] == FixedField(t, old(fields[k]), normal(files[k])[..Min(|normal(files[k])|, t.maxName)])
        else fields[k] == old(fields[k])
    {
      var name := normal(files[i]);
      if thin {
        if last != Some(files[i]) {
          last := Some(files[i]);
          total := total + |name| + 1;
          if t.style == Svr4 { total := total + 1; }
        }
      } else {
        var thislen := |name|;
        if thislen > t.maxName && traditional { thislen := t.maxName; }
        if thislen > t.maxName {
          total := total + thislen + 1;
          if t.style == Svr4 { total := total + 1; }
        } else {
          fields[i] := FixShortName(t, fields[i], name[..thislen]);
        }
      }
    }
  }

  /** memcpy s into buf at position `at`, after which the buffer is filled up to `end`. */
  method Append(buf: array<byte>, at: nat, s: seq<byte>) returns (end: nat)
    requires at + |s| <= buf.Length
    modifies buf
    ensures end == at + |s| && buf[..end] == old(buf[..at]) + s
  {
    for k := 0 to |s|
      invariant buf[..at + k] == old(buf[..at]) + s[..k]
    {
      buf[at + k] := s[k];
      assert buf[..at + k + 1] == buf[..at + k] + [s[k]];
    }
    end := at + |s|;
    assert s[..|s|] == s;
  }

  function FilledField(t: Target, thin: bool, files: seq<seq<byte>>, normal: seq<byte> -> seq<byte>,
                       field: seq<byte>, i: nat): seq<byte>
    requires ValidTarget(t) && i < |files| && |field| == NAMELEN
  {
    if thin || OwnEntry(t, thin, files, normal, i)
    then IndexField(t, field, EntryOffset(t, thin, files, normal, i)) else field
  }

  /** One member of the second pass: where its entry starts and how far the table is filled. */
  method FillOne(t: Target, thin: bool, files: seq<seq<byte>>, normal: seq<byte> -> seq<byte>, i: nat,
                 tab: array<byte>, at: nat, last: Option<seq<byte>>, lastStroff: nat)
    returns (strptr: nat, stroff: nat)
    requires i < |files| && at <= tab.Length && tab[..at] == Table(t, thin, files, normal, i)
    requires last == if thin && i > 0 then Some(files[i - 1]) else None
    requires thin && i > 0 ==> lastStroff == EntryOffset(t, thin, files, normal, i - 1)
    requires tab.Length == |Table(t, thin, files, normal, |files|)|
    modifies tab
    ensures strptr <= tab.Length && tab[..strptr] == Table(t, thin, files, normal, i + 1)
    ensures thin || OwnEntry(t, thin, files, normal, i) ==> stroff == EntryOffset(t, thin, files, normal, i)
  {
    strptr, stroff := at, at;
    var name := normal(files[i]);
    if |name| > t.maxName || thin {
      if last == Some(files[i]) {
        stroff := lastStroff;
      } else {
        TablePrefix(t, thin, files, normal, i + 1, |files|);
        strptr := Append(tab, at, Entry(t, name));
      }
    }
  }

  lemma EmptyStart(t: Target, thin: bool, files: seq<seq<byte>>, normal: seq<byte> -> seq<byte>)
    ensures Table(t, thin, files, normal, 0) == []
  {
  }

  /** Second pass: the filling loop writes exactly the bytes the sizing loop reserved. */
  method FillTable(t: Target, thin: bool, files: seq<seq<byte>>, normal: seq<byte> -> seq<byte>,
                   fields: array<seq<byte>>, tab: array<byte>)
    requires ValidTarget(t) && fields.Length == |files|
    requires forall i :: 0 <= i < fields.Length ==> |fields[i]| == NAMELEN
    requires tab.Length == |Table(t, thin, files, normal, |files|)|
    modifies fields, tab
    ensures tab[..] == Table(t, thin, files, normal, |files|)
    ensures forall i :: 0 <= i < |files| ==> fields[i] == FilledField(t, thin, files, normal, old(fields[i]), i)
  {
    hide Table, EntryOffset, IndexField;
    assert Table(t, thin, files, normal, 0) == [] by { EmptyStart(t, thin, files, normal); }
    ghost var was := fields[..];
    var strptr: nat := 0;
    var last: Option<seq<byte>> := None;
    var lastStroff: nat := 0;
    for i := 0 to |files|
      invariant last == if thin && i > 0 then Some(files[i - 1]) else None
      invariant thin && i > 0 ==> lastStroff == EntryOffset(t, thin, files, normal, i - 1)
      invariant strptr <= tab.Length && tab[..strptr] == Table(t, thin, files, normal, i)
      invariant forall k :: i <= k < |files| ==> fields[k] == was[k]
      invariant forall k :: 0 <= k < i ==> fields[k] == FilledField(t, thin, files, normal, was[k], k)
    {
      var end, stroff := FillOne(t, thin, files, normal, i, tab, strptr, last, lastStroff);
      strptr := end;
      if thin { last, lastStroff := Some(files[i]), stroff; }
      if |normal(files[i])| > t.maxName || thin {
        fields[i] := IndexField(t, fields[i], stroff);
      }
    }
    assert tab[..] == tab[..strptr];
  }

  /** _bfd_construct_extended_name_table. */
  method ConstructTable(t: Target, thin: bool, traditional: bool, files: seq<seq<byte>>, normal: seq<byte> -> seq<byte>,
                        fields: array<seq<byte>>) returns (tab: array<byte>)
    requires ValidTarget(t) && fields.Length == |files|
    requires forall i :: 0 <= i < fields.Length ==> |fields[i]| == NAMELEN
    modifies fields
    ensures fresh(tab)
    ensures tab[..] == if traditional && !thin then [] else Table(t, thin, files, normal, |files|)
    ensures thin || !traditional ==> forall i :: 0 <= i < |files| ==>
      fields[i] == FieldAfter(t, thin, files, normal, old(fields[..]), i)
    ensures !thin && traditional ==> forall i :: 0 <= i < |files| ==>
      fields[i] == FixedField(t, old(fields[i]), normal(files[i])[..Min(|normal(files[i])|, t.maxName)])
  {
    hide FixedField, IndexField, Table, EntryOffset, Min, OwnEntry, FilledField, FieldAfter;
    ghost var was := fields[..];
    var total := SizeTable(t, thin, traditional, files, normal, fields);
    ghost var mid := fields[..];
    tab := new byte[total];
    if thin || !traditional {
      forall i | 0 <= i < |files|
        ensures |mid[i]| == NAMELEN
        ensures FilledField(t, thin, files, normal, mid[i], i) == FieldAfter(t, thin, files, normal, was, i)
        ensures !thin && !OwnEntry(t, thin, files, normal, i) ==> mid[i] == FieldAfter(t, thin, files, normal, was, i)
      {
        AfterBoth(t, thin, files, normal, was, mid[i], i);
      }
    }
    if total > 0 {
      FillTable(t, thin, files, normal, fields, tab);
      assert forall i :: 0 <= i < |files| ==> fields[i] == FilledField(t, thin, files, normal, mid[i], i);
    } else if thin || !traditional {
      EmptyTable(t, thin, files, normal);
      forall i | 0 <= i < |files| ensures fields[i] == FieldAfter(t, thin, files, normal, was, i) {
        assert !OwnEntry(t, thin, files, normal, i) && fields[i] == mid[i];
      }
    }
  }

  /** The sizing pass and then the filling pass give a header its final name field. */
  lemma AfterBoth(t: Target, thin: bool, files: seq<seq<byte>>, normal: seq<byte> -> seq<byte>, was: seq<seq<byte>>,
      mid: seq<byte>, i: nat)
    requires ValidTarget(t) && i < |files| == |was| && |was[i]| == |mid| == NAMELEN
    requires mid == if !thin && !OwnEntry(t, thin, files, normal, i)
      then FixedField(t, was[i], normal(files[i])[..Min(|normal(files[i])|, t.maxName)]) else was[i]
    ensures FilledField(t, thin, files, normal, mid, i) == FieldAfter(t, thin, files, normal, was, i)
    ensures !thin && !OwnEntry(t, thin, files, normal, i) ==> mid == FieldAfter(t, thin, files, normal, was, i)
  {
    hide FixedField, IndexField, EntryOffset, Min;
    if !thin && !OwnEntry(t, thin, files, normal, i) { WholeName(normal(files[i]), t.maxName); }
  }

  lemma WholeName(name: seq<byte>, max: nat)
    requires |name| <= max
    ensures name[..Min(|name|, max)] == name
  {
  }

  lemma EmptyTable(t: Target, thin: bool, files: seq<seq<byte>>, normal: seq<byte> -> seq<byte>)
    requires |Table(t, thin, files, normal, |files|)| == 0
    ensures files != [] ==> !thin
    ensures forall i :: 0 <= i < |files| ==> !OwnEntry(t, thin, files, normal, i)
  {
    if files != [] { TablePrefix(t, thin, files, normal, 1, |files|); }
    forall i | 0 <= i < |files| ensures !OwnEntry(t, thin, files, normal, i) {
      TablePrefix(t, thin, files, normal, i + 1, |files|);
    }
  }

  // The reader --------------------------------------------------------------

  predicate Slashy(c: byte) { c == SLASH || c == BACKSLASH }

  /** What becomes of one byte of the table. */
  function FixByte(s: seq<byte>, i: nat): byte
    requires i < |s|
  {
    if s[i] == NEWLINE then (if i > 0 && Slashy(s[i - 1]) then NEWLINE else NUL)
    else if Slashy(s[i]) then (if i + 1 < |s| && s[i + 1] == NEWLINE then NUL else SLASH)
    else s[i]
  }

  function FixNames(s: seq<byte>): (r: seq<byte>)
    ensures |r| == |s| && forall i :: 0 <= i < |s| ==> r[i] == FixByte(s, i)
  {
    seq(|s|, i requires 0 <= i < |s| => FixByte(s, i))
  }

  /** The in-place loop of _bfd_slurp_extended_name_table. */
  method FixNamesInPlace(buf: array<byte>)
    modifies buf
    ensures buf[..] == FixNames(old(buf[..]))
  {
    ghost var was := buf[..];
    var i := 0;
    while i < buf.Length
      invariant 0 <= i <= buf.Length
      invariant forall k :: 0 <= k < i - 1 ==> buf[k] == FixByte(was, k)
      invariant i > 0 ==> buf[i - 1] == if Slashy(was[i - 1]) then SLASH else FixByte(was, i - 1)
      invariant forall k :: i <= k < buf.Length ==> buf[k] == was[k]
    {
      if buf[i] == NEWLINE {
        if i > 0 && buf[i - 1] == SLASH { buf[i - 1] := NUL; } else { buf[i] := NUL; }
      }
      if buf[i] == BACKSLASH { buf[i] := SLASH; }
      i := i + 1;
    }
    assert forall k :: 0 <= k < buf.Length ==> buf[..][k] == FixNames(was)[k];
  }

  /** Names the rewriting leaves recoverable: a slash at the very end survives only in front of the '/' of SVR4. */
  ghost predicate TableableName(t: Target, name: seq<byte>) {
    && NUL !in name && NEWLINE !in name && BACKSLASH !in name
    && (t.style != Svr4 && name != [] ==> name[|name| - 1] != SLASH)
  }

  /** Rewriting the table makes the entry at `off` a C string equal to the name that was stored there. */
  lemma LookupEntry(t: Target, tab: seq<byte>, off: nat, name: seq<byte>)
    requires TableableName(t, name)
    requires off + |Entry(t, name)| <= |tab| && tab[off..off + |Entry(t, name)|] == Entry(t, name)
    requires off > 0 ==> tab[off - 1] == NEWLINE
    ensures CString(FixNames(tab), off) == name
  {
    hide FixByte, CString;
    var e, r := Entry(t, name), FixNames(tab);
    forall k | 0 <= k < |e| ensures tab[off + k] == e[k] { SliceAt(tab, off, e, k); }
    forall k | 0 <= k < |name| ensures r[off + k] == name[k] {
      assert e[k] == name[k];
      NameByteStays(t, tab, off, name, k);
    }
    assert r[off..off + |name|] == name;
    TerminatorMade(t, tab, off, name);
    CStringIs(r, off, name);
  }

  lemma SliceAt(tab: seq<byte>, off: nat, e: seq<byte>, k: nat)
    requires k < |e| && off + |e| <= |tab| && tab[off..off + |e|] == e
    ensures tab[off + k] == e[k]
  {
    assert tab[off..off + |e|][k] == tab[off + k];
  }

  /** No byte of a stored name is rewritten. */
  lemma NameByteStays(t: Target, tab: seq<byte>, off: nat, name: seq<byte>, k: nat)
    requires TableableName(t, name) && k < |name| && off + |Entry(t, name)| <= |tab|
    requires forall j :: 0 <= j < |Entry(t, name)| ==> tab[off + j] == Entry(t, name)[j]
    ensures FixByte(tab, off + k) == name[k]
  {
    var e := Entry(t, name);
    assert tab[off + k] == e[k] == name[k];
    assert tab[off + (k + 1)] == e[k + 1];
  }

  /** The byte after a stored name becomes a NUL. */
  lemma TerminatorMade(t: Target, tab: seq<byte>, off: nat, name: seq<byte>)
    requires TableableName(t, name) && off + |Entry(t, name)| <= |tab| && (off > 0 ==> tab[off - 1] == NEWLINE)
    requires forall j :: 0 <= j < |Entry(t, name)| ==> tab[off + j] == Entry(t, name)[j]
    ensures FixByte(tab, off + |name|) == NUL
  {
    var e, n := Entry(t, name), |name|;
    assert tab[off + n] == e[n];
    if t.style == Svr4 {
      assert tab[off + (n + 1)] == e[n + 1] == NEWLINE;
    } else if n > 0 {
      assert tab[off + (n - 1)] == e[n - 1] == name[n - 1];
    }
  }

  lemma {:induction false} EntryStartsLine(t: Target, thin: bool, files: seq<seq<byte>>,
      normal: seq<byte> -> seq<byte>, n: nat)
    requires n <= |files|
    ensures var tab := Table(t, thin, files, normal, n); tab != [] ==> tab[|tab| - 1] == NEWLINE
  {
    if n > 0 { EntryStartsLine(t, thin, files, normal, n - 1); }
  }

  lemma {:induction false} OffsetStartsLine(t: Target, thin: bool, files: seq<seq<byte>>,
      normal: seq<byte> -> seq<byte>, i: nat)
    requires i < |files|
    ensures var off, tab := EntryOffset(t, thin, files, normal, i), Table(t, thin, files, normal, |files|);
      off <= |tab| && (off > 0 ==> tab[off - 1] == NEWLINE)
  {
    if i == 0 || OwnEntry(t, thin, files, normal, i) {
      EntryStartsLine(t, thin, files, normal, i);
      TablePrefix(t, thin, files, normal, i, |files|);
    } else {
      OffsetStartsLine(t, thin, files, normal, i - 1);
    }
  }

  /** Build, pad to an even length, rewrite, look up: every member that uses the table gets its name back. */
  lemma TableNamesBack(t: Target, thin: bool, files: seq<seq<byte>>, normal: seq<byte> -> seq<byte>, pad: seq<byte>,
      i: nat)
    requires i < |files| && (thin || OwnEntry(t, thin, files, normal, i))
    requires TableableName(t, normal(files[i]))
    ensures var tab, off := Table(t, thin, files, normal, |files|) + pad, EntryOffset(t, thin, files, normal, i);
      off < |tab| && CString(FixNames(tab), off) == normal(files[i])
  {
    hide Table, EntryOffset, FixNames, CString, TableableName;
    var tab, off := Table(t, thin, files, normal, |files|), EntryOffset(t, thin, files, normal, i);
    EntryAtOffset(t, thin, files, normal, i);
    OffsetStartsLine(t, thin, files, normal, i);
    var e := Entry(t, normal(files[i]));
    assert |e| > 0;
    hide Entry;
    assert (tab + pad)[off..off + |e|] == tab[off..off + |e|];
    LookupEntry(t, tab + pad, off, normal(files[i]));
  }
}
