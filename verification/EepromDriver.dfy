/** The EEPROM driver: searching, reading, updating and creating records, step by step, and everything that a
    loss of power may leave in the memory on the way. */
module EepromDriver {
  import opened Words
  import opened EepromFormat
  import opened EepromSearch
  import opened EepromPower

  datatype Status = Success | NotReady | NoRecord | OutOfMemory | TagExists | FormattingError | InvalidTag | InvalidLength

  datatype State = Idle | ResetTagWrite | CreateEndTagWrite | CreateValueWrite | CreateHeaderWrite | UpdateValueWrite
                 | CompletionWait

  /** Bytes to write, or as many zeros. */
  datatype Source = Bytes(bytes: seq<byte>) | Zeros

  function Written(source: Source, size: nat): (bytes: seq<byte>)
    requires source.Bytes? ==> |source.bytes| >= size
    ensures |bytes| == size
  {
    if source.Bytes? then source.bytes[..size] else seq(size, _ => 0)
  }

  class Eeprom {
    const format: Format
    /** The memory that the base address points to. */
    const memory: array<byte>
    var eepromState: State
    var writeOffset: nat
    var writeSize: nat
    var writeData: Source
    var writeHeader: seq<byte>
    /** Every memory that a loss of power might have left behind so far. */
    ghost var left: iset<seq<byte>>
    /** The records that the memory holds. */
    ghost var records: seq<Record>
    /** The record being created, and the position of the record being updated. */
    ghost var pending: Record
    ghost var target: nat

    /** The emulated memory starts out with an end marker. */
    constructor (format: Format, memory: array<byte>)
      requires format.Valid() && format.HeaderSize() <= memory.Length <= 0xFFFF
      modifies memory
      ensures this.format == format && this.memory == memory
      ensures Valid() && eepromState == Idle && records == [] && left == iset{}
    {
      this.format, this.memory := format, memory;
      eepromState, writeOffset, writeSize, writeData, writeHeader := Idle, 0, 0, Zeros, [];
      left, records, pending, target := iset{}, [], Record(0, []), 0;
      new;
      hide Le, Formatted, Format.Tags, Format.EndTag;
      var endTag := format.EndTag();
      for i := 0 to format.HeaderSize()
        modifies memory
        invariant memory[..i] == endTag[..i]
      {
        memory[i] := endTag[i];
      }
      assert memory[..][0..format.HeaderSize()] == endTag;
      EndTagAlone(format, memory[..]);
    }

    ghost predicate Sized()
      reads this
    {
      format.Valid() && memory.Length <= 0xFFFF
    }

    ghost predicate Holds()
      reads this, memory
    {
      Sized() && Formatted(format, memory[..], 0, records) && NoTagTwice(records)
    }

    /** The end marker, which a new record replaces. */
    ghost function Base(): nat
      reads this
    {
      Size(format, records)
    }

    /** There is room for the record being created and for the end marker after it. */
    ghost predicate Room()
      reads this
    {
      Base() + 2 * format.HeaderSize() + writeSize <= memory.Length
    }

    /** The record being created, as the fields describe it. */
    ghost predicate Creating()
      reads this
    {
      && format.Valid() && writeOffset == Base() + format.HeaderSize() && writeSize == |pending.value|
      && (writeData.Bytes? ==> |writeData.bytes| >= writeSize) && Written(writeData, writeSize) == pending.value
      && writeHeader == format.Header(pending.tag, writeSize)
      && Usable(format, pending.tag) && writeSize < format.Lengths() && NoTag(records, pending.tag)
    }

    ghost predicate Updating()
      reads this
    {
      && format.Valid() && target < |records| && writeOffset == ValueOffset(format, 0, records, target)
      && writeSize == |records[target].value| && (writeData.Bytes? ==> |writeData.bytes| >= writeSize)
    }

    /** What holds between the steps of the task. */
    ghost predicate Valid()
      reads this, memory
    {
      && Sized()
      && match eepromState
         case ResetTagWrite => true
         case CreateEndTagWrite => Holds() && Creating()
         case CreateValueWrite => Holds() && Creating() && Room() && EndTagWritten()
         case CreateHeaderWrite => Holds() && Creating() && Room() && EndTagWritten() && ValueWritten()
         case UpdateValueWrite => Holds() && Updating()
         case _ => Holds()
    }

    ghost predicate EndTagWritten()
      reads this, memory
      requires format.Valid() && Room()
    {
      var at := Base() + format.HeaderSize() + writeSize;
      memory[at..at + format.HeaderSize()] == format.EndTag()
    }

    ghost predicate ValueWritten()
      reads this, memory
      requires Room() && writeSize == |pending.value|
    {
      var at := Base() + format.HeaderSize();
      memory[at..at + writeSize] == pending.value
    }

    /** Writes bytes to the memory.  The emulation writes one after the other, but what a loss of power leaves of
        the range may be anything, unless the platform writes it at once. */
    method WriteData(addrOffset: nat, source: Source, size: nat, ghost atomic: bool) returns (ok: bool, ghost passed: seq<seq<byte>>)
      requires source.Bytes? ==> |source.bytes| >= size
      modifies memory, this`left
      ensures ok == (addrOffset + size <= memory.Length)
      ensures memory[..] == if ok then Patched(old(memory[..]), addrOffset, Written(source, size)) else old(memory[..])
      ensures ok ==> forall k :: 0 <= k < memory.Length ==>
                memory[k] == if k < addrOffset || addrOffset + size <= k then old(memory[k])
                             else if source.Bytes? then source.bytes[k - addrOffset] else 0
      ensures passed == if ok then Passing(old(memory[..]), addrOffset, Written(source, size)) else []
      ensures !ok ==> left == old(left)
      ensures ok && atomic ==> left == old(left) + iset{old(memory[..]), memory[..]}
      ensures ok && !atomic ==> left == old(left) + Tearing(old(memory[..]), addrOffset, size)
    {
      hide Patched, Torn, Tearing, Passing;
      passed := [];
      if addrOffset + size > memory.Length {
        return false, [];
      }
      ghost var was := memory[..];
      ghost var bytes := Written(source, size);
      assert forall i :: 0 <= i < size ==> bytes[i] == if source.Bytes? then source.bytes[i] else 0;
      PatchedStarts(was, addrOffset, bytes);
      passed := [was];
      for i := 0 to size
        modifies memory
        invariant memory[..] == Patched(was, addrOffset, bytes[..i])
        invariant |passed| == i + 1 && forall j :: 0 <= j <= i ==> passed[j] == Patched(was, addrOffset, bytes[..j])
      {
        memory[addrOffset + i] := if source.Bytes? then source.bytes[i] else 0;
        PatchedMore(was, addrOffset, bytes, i);
        assert memory[..] == Patched(was, addrOffset, bytes[..i])[addrOffset + i := bytes[i]];
        passed := passed + [memory[..]];
      }
      assert bytes[..size] == bytes;
      PatchedAt(was, addrOffset, bytes);
      assert forall k :: 0 <= k < memory.Length ==> memory[k] == memory[..][k] && was[k] == old(memory[k]);
      AllPassed(was, addrOffset, bytes, passed);
      if atomic {
        left := left + iset{was, memory[..]};
      } else {
        left := left + Tearing(was, addrOffset, size);
      }
      ok := true;
    }

    /** Reads a field of a header. */
    method ReadField(offset: nat, size: nat) returns (n: nat)
      requires offset + size <= memory.Length
      ensures n == FromLe(memory[offset..offset + size])
    {
      n := 0;
      for i := 0 to size
        invariant n == FromLe(memory[offset..offset + i])
      {
        n := n + memory[offset + i] * Pow2(8 * i);
        assert memory[offset..offset + i + 1] == memory[offset..offset + i] + [memory[offset + i]];
        FromLeMore(memory[offset..offset + i], memory[offset + i]);
      }
    }

    /** Searches for a record.  Offsets are 16-bit words, which must not wrap on the way; they never do in a
        memory that holds records. */
    method RecordSearch(recordTag: nat) returns (status: Status, recordBase: nat, recordLength: nat)
      requires Sized() && (eepromState == Idle && Usable(format, recordTag) ==> NeverWraps(format, memory[..], 0, recordTag))
      ensures !Usable(format, recordTag) ==> status == InvalidTag
      ensures Usable(format, recordTag) && eepromState != Idle ==> status == NotReady
      ensures Usable(format, recordTag) && eepromState == Idle ==>
                match Find(format, memory[..], 0, recordTag)
                case Found(base, length) => status == Success && recordBase == base && recordLength == length
                case Absent(base) => status == NoRecord && recordBase == base
                case Bad => status == FormattingError
    {
      hide TagAt, LengthAt, Find, NeverWraps;
      recordBase, recordLength := 0, 0;
      if recordTag > format.Tags() - 1 || recordTag == format.EndMarker() || recordTag == format.FreeSpace() {
        return InvalidTag, 0, 0;
      }
      if eepromState != Idle {
        return NotReady, 0, 0;
      }
      var currentOffset: nat := 0;
      ghost var mem := memory[..];
      while true
        invariant Find(format, mem, 0, recordTag) == Find(format, mem, currentOffset, recordTag)
        invariant NeverWraps(format, mem, currentOffset, recordTag)
        decreases memory.Length - currentOffset
      {
        FindStep(format, mem, currentOffset, recordTag);
        if currentOffset > memory.Length - format.HeaderSize() {
          return FormattingError, 0, 0;
        }
        var currentTag, currentLength := ReadHeader(currentOffset);
        if currentTag == recordTag {
          return Success, currentOffset, currentLength;
        } else if currentTag == format.EndMarker() && currentLength == 0 {
          return NoRecord, currentOffset, currentLength;
        }
        var next := currentOffset + format.HeaderSize() + currentLength;
        NeverWrapsStep(format, mem, currentOffset, recordTag);
        RemainderIs(next, 0x1_0000, 0, next);
        currentOffset := next % 0x1_0000;
      }
    }

    method ReadHeader(offset: nat) returns (tag: nat, length: nat)
      requires Sized() && offset + format.HeaderSize() <= memory.Length
      ensures tag == TagAt(format, memory[..], offset) && length == LengthAt(format, memory[..], offset)
      ensures length < format.Lengths()
    {
      hide FromLe;
      tag := ReadField(offset, format.tagSize);
      length := ReadField(offset + format.tagSize, format.lengthSize);
      PartOfSlice(memory[..], 0, memory.Length, offset, format.tagSize);
      PartOfSlice(memory[..], 0, memory.Length, offset + format.tagSize, format.lengthSize);
      FromLeBounded(memory[offset + format.tagSize..offset + format.HeaderSize()]);
    }

    /** Empties the list: the end marker goes first. */
    method StepReset()
      requires Valid() && eepromState == ResetTagWrite
      modifies this`eepromState, this`left, this`records, memory
      ensures Valid() && left == old(left + Tears())
      ensures if format.HeaderSize() <= memory.Length then eepromState == CompletionWait && records == []
              else eepromState == ResetTagWrite && records == old(records)
    {
      hide Patched, Torn, Tearing, Passing, Le, FromLe, Format.Tags;
      ghost var was := memory[..];
      var writeOk, _ := WriteData(0, Bytes(format.EndTag()), format.HeaderSize(), false);
      if writeOk {
        eepromState, records := CompletionWait, [];
        assert Written(Bytes(format.EndTag()), format.HeaderSize()) == format.EndTag();
        PatchedSlices(was, 0, format.EndTag());
        EndTagAlone(format, memory[..]);
      }
    }

    /** Puts an end marker behind the place of the new record. */
    method StepEndTag()
      requires Valid() && eepromState == CreateEndTagWrite
      modifies this`eepromState, this`left, memory
      ensures Valid() && left + Tears() == old(left + Tears())
      ensures eepromState == if Room() then CreateValueWrite else CreateEndTagWrite
      ensures !Room() ==> memory[..] == old(memory[..])
    {
      hide Patched, Torn, Tearing, Passing, ValueTears, Le, Formatted, NoTagTwice, NoTag, Usable, Format.Tags, Format.Lengths;
      ghost var was, at := memory[..], writeOffset + writeSize;
      var writeOk, _ := WriteData(writeOffset + writeSize, Bytes(format.EndTag()), format.HeaderSize(), false);
      if writeOk {
        assert Written(Bytes(format.EndTag()), format.HeaderSize()) == format.EndTag();
        PatchedSlices(was, at, format.EndTag());
        TornAllBeyond(format, was, records, at, format.HeaderSize());
        eepromState := CreateValueWrite;
        Regroup(old(left), Tearing(was, at, format.HeaderSize()), ValueTears(format, memory[..], Base(), pending));
      }
    }

    /** Writes the value of the record to be. */
    method StepValue()
      requires Valid() && eepromState == CreateValueWrite
      modifies this`eepromState, this`left, memory
      ensures Valid() && left + Tears() == old(left + Tears()) && eepromState == CreateHeaderWrite
    {
      hide Valid, Tears, Patched, Torn, Tearing, Passing, HeaderTears, Formatted, NoTagTwice, NoTag, Usable, Format.Tags, Format.Lengths,
        Format.EndTag;
      ReadyForValue();
      ghost var was, at := memory[..], writeOffset;
      var writeOk, _ := WriteData(writeOffset, writeData, writeSize, false);
      ValueStep(format, was, memory[..], records, at, pending.value);
      eepromState := CreateHeaderWrite;
      ReadyForHeader();
      Regroup(old(left), Tearing(was, at, writeSize), Tears());
    }

    /** What validity says before the value is written. */
    lemma ReadyForValue()
      requires Valid() && eepromState == CreateValueWrite
      ensures Holds() && Creating() && Room()
      ensures var end := writeOffset + writeSize;
              && end + format.HeaderSize() <= memory.Length && memory[..][end..end + format.HeaderSize()] == format.EndTag()
              && Tears() == Tearing(memory[..], writeOffset, writeSize)
                          + HeaderTears(format, Patched(memory[..], writeOffset, pending.value), Base(), pending)
    {
      hide Patched, Tearing, HeaderTears, Formatted, NoTagTwice, NoTag, Usable, Format.Tags, Format.Lengths, Format.EndTag;
      var end := writeOffset + writeSize;
      assert memory[..][end..end + format.HeaderSize()] == memory[end..end + format.HeaderSize()];
    }

    /** And what makes it hold afterwards. */
    lemma ReadyForHeader()
      requires eepromState == CreateHeaderWrite && Holds() && Creating() && Room()
      requires var end := writeOffset + writeSize;
               && end + format.HeaderSize() <= memory.Length && memory[..][end..end + format.HeaderSize()] == format.EndTag()
               && memory[..][writeOffset..end] == pending.value
      ensures Valid() && Tears() == HeaderTears(format, memory[..], Base(), pending)
    {
      hide HeaderTears, Formatted, NoTagTwice, NoTag, Usable, Format.Tags, Format.Lengths, Format.EndTag;
      var end := writeOffset + writeSize;
      assert memory[..][end..end + format.HeaderSize()] == memory[end..end + format.HeaderSize()];
      assert memory[..][writeOffset..end] == memory[writeOffset..end];
    }

    /** Writes the header of the record to be, which makes it one. */
    method StepHeader()
      requires Valid() && eepromState == CreateHeaderWrite
      modifies this`eepromState, this`left, this`records, memory
      ensures Valid() && left == old(left + Tears())
      ensures eepromState == CompletionWait && records == old(records) + [pending]
    {
      hide Valid, Tears, Patched, Torn, Passing, HeaderTears, Formatted, Usable, Format.Tags, Format.Lengths, Format.EndTag,
        Format.Header;
      ReadyToCommit();
      ghost var was := memory[..];
      var writeOk, _ := WriteData(writeOffset - format.HeaderSize(), Bytes(writeHeader), format.HeaderSize(), true);
      assert Written(Bytes(writeHeader), format.HeaderSize()) == writeHeader;
      HeaderCommits(format, was, memory[..], records, pending);
      HeaderTearsAre(format, was, Base(), pending);
      eepromState, records := CompletionWait, records + [pending];
      HoldsIsValid();
    }

    /** What validity says before the header is written. */
    lemma ReadyToCommit()
      requires Valid() && eepromState == CreateHeaderWrite
      ensures Holds() && Creating() && Room() && Tears() == HeaderTears(format, memory[..], Base(), pending)
      ensures var end := writeOffset + writeSize;
              && end + format.HeaderSize() <= memory.Length && memory[..][end..end + format.HeaderSize()] == format.EndTag()
              && memory[..][writeOffset..end] == pending.value
    {
      hide HeaderTears, Formatted, NoTagTwice, NoTag, Usable, Format.Tags, Format.Lengths, Format.EndTag;
      var end := writeOffset + writeSize;
      assert memory[..][end..end + format.HeaderSize()] == memory[end..end + format.HeaderSize()];
      assert memory[..][writeOffset..end] == memory[writeOffset..end];
    }

    lemma HoldsIsValid()
      requires eepromState in {CompletionWait, Idle} && Holds()
      ensures Valid()
    {
    }

    /** Writes the new value of a record. */
    method StepUpdate() returns (ghost passed: seq<seq<byte>>)
      requires Valid() && eepromState == UpdateValueWrite
      modifies this`eepromState, this`left, this`records, memory
      ensures Valid() && left == old(left + Tears()) && eepromState == CompletionWait
      ensures records == WithValue(old(records), target, Written(writeData, writeSize))
      ensures writeOffset + writeSize <= memory.Length
              && passed == Passing(old(memory[..]), writeOffset, Written(writeData, writeSize))
    {
      hide Patched, Torn, Tearing, Passing, Formatted, ValueOffset, Written;
      ghost var was, at, bytes := memory[..], writeOffset, Written(writeData, writeSize);
      ValueInside(format, was, records, target);
      var writeOk;
      writeOk, passed := WriteData(writeOffset, writeData, writeSize, false);
      WrittenOver(format, was, records, target, bytes);
      MapOfChanged(records, target, bytes);
      eepromState, records := CompletionWait, WithValue(records, target, bytes);
    }

    /** Every memory that a loss of power may leave behind from now on, until the driver is idle. */
    ghost function Tears(): iset<seq<byte>>
      requires Valid()
      reads this, memory
    {
      match eepromState
      case ResetTagWrite => if format.HeaderSize() <= memory.Length then Tearing(memory[..], 0, format.HeaderSize()) else iset{}
      case CreateEndTagWrite => if Room() then CreateTears(format, memory[..], Base(), pending) else iset{}
      case CreateValueWrite => ValueTears(format, memory[..], Base(), pending)
      case CreateHeaderWrite => HeaderTears(format, memory[..], Base(), pending)
      case UpdateValueWrite => Tearing(memory[..], writeOffset, writeSize)
      case CompletionWait => iset{}
      case Idle => iset{}
    }

    /** In the middle of a create, whatever may be left is the old list of records or the new one. */
    lemma CreateIsAtomic(m: seq<byte>)
      requires Valid() && eepromState in {CreateEndTagWrite, CreateValueWrite, CreateHeaderWrite} && m in Tears()
      ensures Shows(format, m, records) || Shows(format, m, records + [pending])
    {
      hide Formatted, NoTagTwice, NoTag, Usable, CreateTears, ValueTears, HeaderTears, Shows, Le, Format.Tags, Format.Lengths,
        Format.EndTag;
      match eepromState {
        case CreateEndTagWrite => CreateTearsAreWhole(format, memory[..], records, pending);
        case CreateValueWrite => ValueTearsAreWhole(format, memory[..], records, pending);
        case CreateHeaderWrite => HeaderTearsAreWhole(format, memory[..], records, pending);
        case ResetTagWrite =>
        case UpdateValueWrite =>
        case CompletionWait =>
        case Idle =>
      }
      if Formatted(format, m, 0, records) {
        FormattedShows(format, m, records);
      } else {
        FormattedShows(format, m, records + [pending]);
      }
    }

    /** In the middle of an update, it is the records with some value of the same length for the one. */
    lemma UpdateKeepsOthers(m: seq<byte>)
      requires Valid() && eepromState == UpdateValueWrite && m in Tears()
      ensures exists v :: |v| == |records[target].value| && Shows(format, m, WithValue(records, target, v))
                          && MapOf(WithValue(records, target, v)) == MapOf(records)[records[target].tag := v]
    {
      hide Formatted, NoTagTwice, ValueOffset, Shows, MapOf, Torn;
      PowerLossInUpdate(format, memory[..], records, target, m);
    }

    /** The records that there will be once the driver is idle. */
    ghost function Goal(): seq<Record>
      reads this, memory
      requires Valid()
    {
      match eepromState
      case ResetTagWrite => []
      case CreateEndTagWrite => records + [pending]
      case CreateValueWrite => records + [pending]
      case CreateHeaderWrite => records + [pending]
      case UpdateValueWrite => WithValue(records, target, Written(writeData, writeSize))
      case CompletionWait => records
      case Idle => records
    }

    /** One run of the driver task.  A platform that is still busy with the last write says so when polled. */
    method Task(polling: bool)
      requires Valid()
      modifies this`eepromState, this`left, this`records, memory
      ensures Valid() && Goal() == old(Goal())
      // what may be left behind in this step and in those to come is what might have been before
      ensures left + Tears() == old(left + Tears())
      // a new list takes effect with the header write, or the value write of an update
      ensures eepromState in {CompletionWait, Idle} || records == old(records)
      ensures old(eepromState) in {CompletionWait, Idle} ==> records == old(records)
      // progress: one state at a time, unless the platform is busy, or there is no room
      ensures eepromState ==
              match old(eepromState)
              case ResetTagWrite => if format.HeaderSize() <= memory.Length then CompletionWait else ResetTagWrite
              case CreateEndTagWrite => if old(Room()) then CreateValueWrite else CreateEndTagWrite
              case CreateValueWrite => if polling then CreateValueWrite else CreateHeaderWrite
              case CreateHeaderWrite => if polling then CreateHeaderWrite else CompletionWait
              case UpdateValueWrite => CompletionWait
              case CompletionWait => if polling then CompletionWait else Idle
              case Idle => Idle
      ensures old(eepromState) == CreateEndTagWrite && !old(Room()) ==> memory[..] == old(memory[..])
    {
      hide Formatted, NoTagTwice, Tearing, CreateTears, ValueTears, HeaderTears;
      match eepromState
      case ResetTagWrite => StepReset();
      case CreateEndTagWrite => StepEndTag();
      case CreateValueWrite =>
        if !polling {
          StepValue();
        }
      case CreateHeaderWrite =>
        if !polling {
          StepHeader();
        }
      case UpdateValueWrite => var _ := StepUpdate();
      case CompletionWait =>
        if !polling {
          eepromState := Idle;
        }
      case Idle =>
    }

    /** Runs the task until it is idle, as the emulated memory allows: it is never busy. */
    method RunToIdle()
      requires Valid() && (eepromState == ResetTagWrite ==> format.HeaderSize() <= memory.Length)
      requires eepromState == CreateEndTagWrite ==> Room()
      modifies this`eepromState, this`left, this`records, memory
      ensures Valid() && eepromState == Idle && records == old(Goal()) && left == old(left + Tears())
    {
      hide Formatted, NoTagTwice, Creating, Updating, Goal, Tears;
      while eepromState != Idle
        invariant Valid() && Goal() == old(Goal()) && left + Tears() == old(left + Tears())
        invariant eepromState == ResetTagWrite ==> format.HeaderSize() <= memory.Length
        invariant eepromState == CreateEndTagWrite ==> Room()
        decreases match eepromState
                  case ResetTagWrite => 2
                  case CreateEndTagWrite => 4
                  case CreateValueWrite => 3
                  case CreateHeaderWrite => 2
                  case UpdateValueWrite => 2
                  case CompletionWait => 1
                  case Idle => 0
      {
        Task(false);
      }
      GoalWhenIdle();
    }

    lemma GoalWhenIdle()
      requires Valid() && eepromState == Idle
      ensures Goal() == records && Tears() == iset{}
    {
    }

    /** Without room for the end marker that follows it, a record is never created: the task gets nowhere. */
    method RunWithoutRoom(runs: nat)
      requires Valid() && eepromState == CreateEndTagWrite && !Room()
      modifies this`eepromState, this`left, this`records, memory
      ensures Valid() && eepromState == CreateEndTagWrite && memory[..] == old(memory[..]) && records == old(records)
    {
      for i := 0 to runs
        invariant Valid() && eepromState == CreateEndTagWrite && !Room() && memory[..] == old(memory[..])
        invariant records == old(records)
      {
        Task(false);
      }
    }

    /** Starts the creation of a record, and if no callback is given waits until it is done.  The space
        check leaves out the end marker, so that in a nearly full memory there is no end to the wait. */
    method RecordCreate(recordTag: nat, defaultValue: Source, recordLength: nat, callback: bool) returns (status: Status)
      requires Valid() && Sized() && (eepromState == Idle ==> Holds()) && recordLength < format.Lengths()
      requires defaultValue.Bytes? ==> |defaultValue.bytes| >= recordLength
      requires !callback && eepromState == Idle && Usable(format, recordTag) && recordTag !in MapOf(records) ==>
                             Base() + 2 * format.HeaderSize() + recordLength <= memory.Length
                             || Base() + format.HeaderSize() + recordLength > memory.Length
      modifies this, memory
      ensures Valid() && (status != Success || callback ==> left == old(left))
      ensures status ==
              if !Usable(format, recordTag) then InvalidTag
              else if old(eepromState) != Idle then NotReady
              else if recordTag in old(MapOf(records)) then
                if |old(MapOf(records))[recordTag]| == recordLength then TagExists else InvalidLength
              else if old(Base()) + format.HeaderSize() + recordLength > memory.Length then OutOfMemory
              else Success
      ensures status != Success ==> eepromState == old(eepromState) && memory[..] == old(memory[..]) && records == old(records)
      ensures status == Success && callback ==>
                && eepromState == CreateEndTagWrite && memory[..] == old(memory[..]) && records == old(records)
                && Goal() == old(records) + [Record(recordTag, Written(defaultValue, recordLength))]
                && (Room() <==> Base() + 2 * format.HeaderSize() + recordLength <= memory.Length)
      ensures status == Success && !callback ==>
                && eepromState == Idle
                && records == old(records) + [Record(recordTag, Written(defaultValue, recordLength))]
                && MapOf(records) == old(MapOf(records))[recordTag := Written(defaultValue, recordLength)]
                && var r := Record(recordTag, Written(defaultValue, recordLength));
                   old(Base()) + 2 * format.HeaderSize() + |r.value| <= |old(memory[..])|
                   && left == old(left) + CreateTears(format, old(memory[..]), old(Base()), r)
    {
      hide Formatted, Find, NeverWraps, Written, Format.Tags, Format.Lengths, MapOf, NoTag, NoTagTwice;
      var searchBase, searchLength;
      if eepromState == Idle {
        FormattedNeverWraps(format, memory[..], 0, records, recordTag);
      }
      status, searchBase, searchLength := RecordSearch(recordTag);
      if eepromState == Idle && Usable(format, recordTag) {
        FindIsLookup(format, memory[..], records, recordTag);
      }
      if status == Success {
        return if recordLength == searchLength then TagExists else InvalidLength;
      } else if status != NoRecord {
        return;
      }
      if searchBase > memory.Length - (recordLength + format.HeaderSize()) {
        return OutOfMemory;
      }
      writeHeader := format.Header(recordTag, recordLength);
      writeOffset := searchBase + format.HeaderSize();
      writeSize := recordLength;
      writeData := defaultValue;
      eepromState := CreateEndTagWrite;
      pending := Record(recordTag, Written(defaultValue, recordLength));
      status := Success;
      if !callback {
        MapOfMore(records, pending);
        RunToIdle();
      }
    }

    /** Starts an update of a record, and if no callback is given waits until it is done. */
    method RecordWrite(recordTag: nat, source: Source, size: nat, callback: bool) returns (status: Status)
      requires Valid() && (eepromState == Idle ==> Holds()) && (source.Bytes? ==> |source.bytes| >= size)
      modifies this, memory
      ensures Valid() && (status != Success || callback ==> left == old(left))
      ensures status ==
              if !Usable(format, recordTag) then InvalidTag
              else if old(eepromState) != Idle then NotReady
              else if recordTag !in old(MapOf(records)) then NoRecord
              else if |old(MapOf(records))[recordTag]| != size then InvalidLength
              else Success
      ensures status != Success || callback ==> memory[..] == old(memory[..]) && records == old(records)
      ensures status != Success ==> eepromState == old(eepromState)
      ensures status == Success && callback ==>
                eepromState == UpdateValueWrite && MapOf(Goal()) == MapOf(records)[recordTag := Written(source, size)]
      ensures status == Success && !callback ==>
                && eepromState == Idle
                && MapOf(records) == old(MapOf(records))[recordTag := Written(source, size)]
                && target < |old(records)| && old(records)[target].tag == recordTag
                && left == old(left) + Tearing(old(memory[..]), ValueOffset(format, 0, old(records), target), size)
    {
      hide Formatted, Find, NeverWraps, Written, Format.Tags, Format.Lengths, MapOf, NoTag, NoTagTwice, ValueOffset;
      var recordBase, recordLength;
      if eepromState == Idle {
        FormattedNeverWraps(format, memory[..], 0, records, recordTag);
      }
      status, recordBase, recordLength := RecordSearch(recordTag);
      if eepromState == Idle && Usable(format, recordTag) {
        FindIsLookup(format, memory[..], records, recordTag);
      }
      if status != Success {
        return;
      }
      if size != recordLength {
        return InvalidLength;
      }
      writeOffset := recordBase + format.HeaderSize();
      writeSize := size;
      writeData := source;
      eepromState := UpdateValueWrite;
      target := IndexOf(records, recordTag);
      MapOfChanged(records, target, Written(source, size));
      if !callback {
        RunToIdle();
      }
    }

    method ReadBytes(recordData: nat, readSize: nat) returns (readData: seq<byte>)
      requires recordData + readSize <= memory.Length
      ensures readData == memory[recordData..recordData + readSize]
    {
      readData := [];
      for i := 0 to readSize
        invariant readData == memory[recordData..recordData + i]
      {
        readData := readData + [memory[recordData + i]];
      }
    }

    /** Reads bytes of a record. */
    method RecordRead(recordTag: nat, readOffset: nat, readSize: nat) returns (status: Status, readData: seq<byte>)
      requires Valid() && (eepromState == Idle ==> Holds())
      ensures status ==
              if !Usable(format, recordTag) then InvalidTag
              else if eepromState != Idle then NotReady
              else if recordTag !in MapOf(records) then NoRecord
              else if readOffset + readSize > |MapOf(records)[recordTag]| then InvalidLength
              else Success
      ensures readData == if status == Success then MapOf(records)[recordTag][readOffset..readOffset + readSize] else []
    {
      hide Formatted, Find, NeverWraps, Format.Tags, Format.Lengths, MapOf, NoTag, NoTagTwice, ValueOffset;
      var recordBase, recordLength;
      readData := [];
      if eepromState == Idle {
        FormattedNeverWraps(format, memory[..], 0, records, recordTag);
      }
      status, recordBase, recordLength := RecordSearch(recordTag);
      if eepromState == Idle && Usable(format, recordTag) {
        FindIsLookup(format, memory[..], records, recordTag);
      }
      if status != Success {
        return;
      }
      if readOffset + readSize > recordLength {
        return InvalidLength, [];
      }
      readData := ReadBytes(recordBase + readOffset + format.HeaderSize(), readSize);
      PartOfSlice(memory[..], recordBase + format.HeaderSize(), recordLength, readOffset, readSize);
    }
  }

  lemma Regroup(a: iset<seq<byte>>, b: iset<seq<byte>>, c: iset<seq<byte>>)
    ensures (a + b) + c == a + (b + c)
  {
  }

  lemma AllPassed(was: seq<byte>, at: nat, bytes: seq<byte>, passed: seq<seq<byte>>)
    requires at + |bytes| <= |was| && |passed| == |bytes| + 1
    requires forall j :: 0 <= j <= |bytes| ==> passed[j] == Patched(was, at, bytes[..j])
    ensures passed == Passing(was, at, bytes)
  {
    hide Patched;
  }

  lemma {:induction false} FromLeMore(s: seq<byte>, b: byte)
    ensures FromLe(s + [b]) == FromLe(s) + b * Pow2(8 * |s|)
  {
    if s == [] {
      assert [b][1..] == [] && s + [b] == [b];
    } else {
      assert (s + [b])[1..] == s[1..] + [b];
      FromLeMore(s[1..], b);
      ByteHigher(b, |s| - 1);
    }
  }

  lemma ByteHigher(b: byte, n: nat)
    ensures b * Pow2(8 * (n + 1)) == 0x100 * (b * Pow2(8 * n))
  {
    hide Pow2;
    Pow2Adds(8, 8 * n);
    Pow2Values();
  }

  lemma {:induction false} FromLeBounded(s: seq<byte>)
    ensures FromLe(s) < Pow2(8 * |s|)
  {
    if s != [] {
      FromLeBounded(s[1..]);
      Pow2Adds(8, 8 * (|s| - 1));
      Pow2Values();
    }
  }
}
