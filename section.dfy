/**
  A section of a binary object: a typed, named byte region with its address,
  size and file offset, its content, the log of patched regions with the time
  of the last patch, and a slot for an externally produced disassembly.
*/
module Sections {
  import opened Common

  datatype SectionType =
    | Text | SymbolStubs | Symbols | DynSymbols | CString | String | FuncStarts | CodeSig

  /** The display label of each section type. */
  function TypeName(t: SectionType): (text: string)
    ensures text != ""
  {
    match t
    case Text => "Text"
    case SymbolStubs => "Symbol Stubs"
    case Symbols => "Symbols"
    case DynSymbols => "Dynamic Symbols"
    case CString => "CString"
    case String => "String"
    case FuncStarts => "Function Starts"
    case CodeSig => "Code Signatures"
  }

  /** Distinct types have distinct labels. */
  lemma TypeNameInjective(a: SectionType, b: SectionType)
    requires TypeName(a) == TypeName(b)
    ensures a == b
  {
  }

  /** A point in time, as the caller's clock reports it. */
  type Time = int

  /** An opaque handle on a disassembly result; the section only stores it. */
  datatype DisassemblyResult = DisassemblyResult(id: nat)

  /** A patched byte range: start position and length. */
  datatype Region = Region(pos: nat, length: nat)

  predicate NoDuplicates(regions: seq<Region>)
  {
    forall i, j :: 0 <= i < j < |regions| ==> regions[i] != regions[j]
  }

  /** Whether `setSubData` accepts position `pos` on content of length `size`. */
  predicate Accepts(pos: int, size: nat)
  {
    !(pos < 0 || pos > size - 1)
  }

  /**
    `QByteArray::replace(pos, |sub|, sub)`: when the patch fits, the bytes at
    `[pos, pos + |sub|)` are overwritten; otherwise the content is cut at
    `pos` and `sub` appended, so the content grows.
  */
  function Splice(data: seq<Byte>, pos: nat, sub: seq<Byte>): (r: seq<Byte>)
    requires pos <= |data|
    ensures |r| == if pos + |sub| <= |data| then |data| else pos + |sub|
    ensures forall i :: 0 <= i < pos ==> r[i] == data[i]
    ensures forall i :: 0 <= i < |sub| ==> r[pos + i] == sub[i]
    ensures forall i :: pos + |sub| <= i < |data| ==> r[i] == data[i]
  {
    if pos + |sub| <= |data| then data[..pos] + sub + data[pos + |sub|..] else data[..pos] + sub
  }

  /** Appends `r` to the region log unless that exact region is already in it. */
  function Record(regions: seq<Region>, r: Region): (out: seq<Region>)
    ensures r in out
    ensures forall x :: x in out <==> x in regions || x == r
    ensures regions <= out
    ensures |out| == if r in regions then |regions| else |regions| + 1
    ensures NoDuplicates(regions) ==> NoDuplicates(out)
  {
    if r in regions then regions else regions + [r]
  }

  class Section {
    const sectionType: SectionType
    const name: string
    const address: UInt64
    const size: UInt64
    const offset: UInt32
    var data: seq<Byte>
    /** Time of the last accepted patch; `None` until there is one. */
    var modified: Option<Time>
    var regions: seq<Region>
    var disassembly: Option<DisassemblyResult>

    ghost predicate Valid()
      reads this
    {
      NoDuplicates(regions) && (regions != [] ==> modified.Some?)
    }

    /** A section with empty content, no patches and no disassembly attached. */
    constructor (sectionType: SectionType, name: string, address: UInt64, size: UInt64, offset: UInt32)
      ensures Valid()
      ensures this.sectionType == sectionType && this.name == name && this.address == address
      ensures this.size == size && this.offset == offset
      ensures data == [] && modified == None && regions == [] && disassembly == None
      ensures !IsModified()
    {
      this.sectionType := sectionType;
      this.name := name;
      this.address := address;
      this.size := size;
      this.offset := offset;
      data := [];
      modified := None;
      regions := [];
      disassembly := None;
    }

    function Type(): SectionType
    {
      sectionType
    }

    function Name(): string
    {
      name
    }

    function Address(): UInt64
    {
      address
    }

    function Size(): UInt64
    {
      size
    }

    function Offset(): UInt32
    {
      offset
    }

    function Data(): seq<Byte>
      reads this
    {
      data
    }

    /** Replaces the whole content; the patch log and its time stay as they were. */
    method SetData(d: seq<Byte>)
      modifies this`data
      ensures data == d
    {
      data := d;
    }

    /**
      Patches `sub` into the content at `pos`. Rejected, changing nothing,
      unless `0 <= pos <= |data| - 1`, hence always on empty content.
      Otherwise the content is spliced, the time of modification becomes
      `now`, and the region `(pos, |sub|)` is logged unless already there.
    */
    method SetSubData(sub: seq<Byte>, pos: int, now: Time)
      requires Valid()
      modifies this`data, this`modified, this`regions
      ensures Valid()
      ensures Accepts(pos, |old(data)|) ==>
        && data == Splice(old(data), pos, sub)
        && modified == Some(now)
        && regions == Record(old(regions), Region(pos, |sub|))
        && IsModified()
      ensures !Accepts(pos, |old(data)|) ==>
        data == old(data) && modified == old(modified) && regions == old(regions)
    {
      if pos < 0 || pos > |data| - 1 {
        return;
      }
      data := Splice(data, pos, sub);
      modified := Some(now);
      var region := Region(pos, |sub|);
      if region !in regions {
        regions := regions + [region];
      }
    }

    /** True exactly when some patch has been accepted. */
    predicate IsModified()
      reads this
    {
      regions != []
    }

    function ModifiedWhen(): Option<Time>
      reads this
    {
      modified
    }

    function ModifiedRegions(): seq<Region>
      reads this
    {
      regions
    }

    method SetDisassembly(d: Option<DisassemblyResult>)
      modifies this`disassembly
      ensures disassembly == d
    {
      disassembly := d;
    }

    function Disassembly(): Option<DisassemblyResult>
      reads this
    {
      disassembly
    }
  }

  /** Every position is rejected on empty content. */
  lemma EmptyContentRejectsAll(pos: int)
    ensures !Accepts(pos, 0)
  {
  }

  /** Logging a region twice is the same as logging it once. */
  lemma RecordIdempotent(regions: seq<Region>, r: Region)
    ensures Record(Record(regions, r), r) == Record(regions, r)
  {
  }

  /** A patch that fits is undone by patching the overwritten bytes back. */
  lemma SpliceUndo(data: seq<Byte>, pos: nat, sub: seq<Byte>)
    requires pos + |sub| <= |data|
    ensures Splice(Splice(data, pos, sub), pos, data[pos..pos + |sub|]) == data
  {
    var once := Splice(data, pos, sub);
    var back := Splice(once, pos, data[pos..pos + |sub|]);
    assert forall i :: 0 <= i < |data| ==> back[i] == data[i] by {
      forall i | 0 <= i < |data| ensures back[i] == data[i] {
        if pos <= i < pos + |sub| {
          assert back[pos + (i - pos)] == data[pos..pos + |sub|][i - pos];
        }
      }
    }
  }

  /** An empty patch leaves the content as it is. */
  lemma SpliceEmpty(data: seq<Byte>, pos: nat)
    requires pos <= |data|
    ensures Splice(data, pos, []) == data
  {
  }

  /** Patching the same range twice logs it once and keeps the later time. */
  method PatchTwice(d: seq<Byte>, pos: nat, sub1: seq<Byte>, sub2: seq<Byte>, t1: Time, t2: Time)
    returns (regions: seq<Region>, when: Option<Time>, content: seq<Byte>)
    requires pos < |d| && |sub1| == |sub2|
    ensures regions == [Region(pos, |sub1|)]
    ensures when == Some(t2)
    ensures content == Splice(Splice(d, pos, sub1), pos, sub2)
  {
    var s := new Section(Text, "__text", 0, 0, 0);
    s.SetData(d);
    s.SetSubData(sub1, pos, t1);
    assert s.regions == [Region(pos, |sub1|)];
    s.SetSubData(sub2, pos, t2);
    regions, when, content := s.ModifiedRegions(), s.ModifiedWhen(), s.Data();
  }

  /** On a fresh section, whose content is empty, every patch is rejected. */
  method PatchFreshSection(sub: seq<Byte>, pos: int, now: Time) returns (modified: bool, content: seq<Byte>)
    ensures !modified && content == []
  {
    var s := new Section(CString, "__cstring", 0, 0, 0);
    s.SetSubData(sub, pos, now);
    modified, content := s.IsModified(), s.Data();
  }
}
