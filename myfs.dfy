/**
 * The storage engine `MyFs`: a flat file system kept in the bytes of a block device.
 * The device is an array of bytes owned by the engine; `read` is a slice of it and
 * `write` overwrites a range of it in place.
 */
module FileSystem {
  import opened Wrappers
  import opened ByteStrings
  import opened Decimal
  import opened Helper
  import opened Layout
  import opened Slot

  /** The failures the engine reports (its `runtime_error`s and the `stoi` of the constructor). */
  datatype FsError =
    | NameTooLong      // "File name is too long"
    | AlreadyExists    // "A file with this name already exists"
    | FileNotFound     // "File not found"
    | NotImplemented   // "not implemented": a listing of anything but the root
    | ContentTooLong   // content longer than MAX_FILE_SIZE: its padding cannot be built
    | EntryTooLong     // an entry longer than TABLE_ENTRY_SIZE: its padding cannot be built
    | TableFull        // no free slot for a new file (a check the engine lacks)
    | BadCount(StoiError)

  /** `dir_list_entry`. */
  datatype DirListEntry = DirListEntry(name: Bytes, isDir: bool, fileSize: nat)

  /**
   * `EntryInfo`: the byte offset of the slot found and its tokens, or the
   * ENTRY_NOT_FOUND sentinel with an empty token vector.
   */
  datatype EntryInfo = EntryNotFound | EntryFound(offset: nat, tokens: seq<Bytes>)

  /** The only directory `list_dir` supports: "/". */
  const ROOT: Bytes := [47]

  /**
   * An entry as the engine writes it into slot `k`: a storable name of at most
   * MAX_FILE_NAME bytes, the content address of creation index `k`, a size of at most
   * MAX_FILE_SIZE (so that, by `EncodedEntryFits`, its encoding leaves room for a NUL).
   */
  predicate WellPlaced(e: Entry, k: nat) {
    NameIsStorable(e.name) && |e.name| <= MAX_FILE_NAME &&
    e.address == ContentAddress(k) && e.size <= MAX_FILE_SIZE &&
    |EncodeEntry(e)| < TABLE_ENTRY_SIZE
  }

  /**
   * Slot `k` of `d` holds the encoding of `e`, an entry placed at the content address
   * of creation index `k` (so the slot decodes to `e`, by `DecodeEncodeSlot`).
   */
  ghost predicate SlotHolds(d: Bytes, e: Entry, k: nat) {
    DEVICE_SIZE <= |d| && k < MAX_FILES &&
    WellPlaced(e, k) && SlotBytes(d, k) == EncodeSlot(e)
  }

  /** The name of entry `i`. */
  function NameAt(es: seq<Entry>, i: nat): Bytes
    requires i < |es|
  {
    es[i].name
  }

  /**
   * The table invariant: slot `k` holds `es[k]` for every `k < |es|`, and the names
   * are distinct. (Both facts are instantiated only where a proof names them, through
   * `SlotHolds` and `NameAt`.)
   */
  ghost predicate TableHolds(d: Bytes, es: seq<Entry>) {
    DEVICE_SIZE <= |d| && |es| <= MAX_FILES &&
    (forall k {:trigger SlotHolds(d, es[k], k)} :: 0 <= k < |es| ==> SlotHolds(d, es[k], k)) &&
    (forall i, j {:trigger NameAt(es, i), NameAt(es, j)} :: 0 <= i < j < |es| ==> NameAt(es, i) != NameAt(es, j))
  }

  /** The first `n` slots of `d` hold a table. */
  ghost predicate TableIntact(d: Bytes, n: nat) {
    exists es :: |es| == n && TableHolds(d, es)
  }

  /** Position of the first entry named `name` in creation order. */
  function FindName(es: seq<Entry>, name: Bytes): (r: Option<nat>)
    ensures r.Some? ==> r.value < |es| && es[r.value].name == name
    ensures r.Some? ==> forall j :: 0 <= j < r.value ==> es[j].name != name
    ensures r.None? ==> forall j :: 0 <= j < |es| ==> es[j].name != name
  {
    if es == [] then None
    else if es[0].name == name then Some(0)
    else match FindName(es[1..], name)
      case None => None
      case Some(k) => Some(k + 1)
  }

  /** The first index carrying `name` is determined by its defining properties. */
  lemma {:induction false} FindNameUnique(es: seq<Entry>, name: Bytes, k: nat)
    requires k < |es| && es[k].name == name
    requires forall j :: 0 <= j < k ==> es[j].name != name
    ensures FindName(es, name) == Some(k)
  {
    if k > 0 {
      FindNameUnique(es[1..], name, k - 1);
    }
  }

  /** A name not in the table is found, after an append of an entry with that name, at the end. */
  lemma FindNameAppend(es: seq<Entry>, e: Entry)
    requires FindName(es, e.name).None?
    ensures FindName(es + [e], e.name) == Some(|es|)
  {
    FindNameUnique(es + [e], e.name, |es|);
  }

  /** Replacing the entry found by one of the same name leaves the lookup where it was. */
  lemma FindNameReplace(es: seq<Entry>, k: nat, e: Entry)
    requires FindName(es, e.name) == Some(k)
    ensures FindName(es[k := e], e.name) == Some(k)
  {
    FindNameUnique(es[k := e], e.name, k);
  }

  /** Replacing the entry just appended is appending the replacement. */
  lemma ReplaceAppended(es: seq<Entry>, x: Entry, e: Entry)
    ensures (es + [x])[|es| := e] == es + [e]
  {
  }

  /** The slot `set_content` works on: the one found, or the one a creation appends. */
  function TargetIndex(es: seq<Entry>, name: Bytes): (t: nat)
    ensures t <= |es|
    ensures t < |es| <==> FindName(es, name).Some?
    ensures FindName(es, name).Some? ==> t == FindName(es, name).value
  {
    match FindName(es, name)
    case Some(k) => k
    case None => |es|
  }

  /** What `get_content` returns for the `k`-th file: its block read as a C string. */
  function FileContent(d: Bytes, k: nat): (c: Bytes)
    requires DEVICE_SIZE <= |d| && k < MAX_FILES
    ensures |c| <= MAX_FILE_SIZE && NUL !in c && c == ContentBlock(d, k)[..|c|]
    ensures |c| < MAX_FILE_SIZE ==> d[ContentAddress(k) + |c|] == NUL
  {
    CStr(ContentBlock(d, k))
  }

  class MyFs {
    /** The block device. */
    var dev: array<byte>
    /** `_fileCount`: the number of slots in use, loaded at open and stored at close. */
    var fileCount: nat
    /** The table the first `fileCount` slots encode, in creation order. */
    ghost var entries: seq<Entry>

    ghost predicate Valid()
      reads this, dev
    {
      fileCount == |entries| && TableHolds(dev[..], entries)
    }

    /** The member initialisers of the constructor: the device and `_fileCount(0)`. */
    constructor (blkdev: array<byte>)
      requires DEVICE_SIZE <= blkdev.Length
      ensures dev == blkdev && fileCount == 0 && entries == []
      ensures Valid()
    {
      dev := blkdev;
      fileCount := 0;
      entries := [];
    }

    /**
     * The constructor: when the header does not hold the magic and the current
     * version, format and start with no files; otherwise load the count with `stoi`,
     * whose failure propagates. The table is the one the device holds: the engine
     * is in a valid state exactly when the first `fileCount` slots hold one.
     */
    static method Open(blkdev: array<byte>) returns (r: Result<MyFs, FsError>)
      requires DEVICE_SIZE <= blkdev.Length
      modifies blkdev
      ensures r.Ok? ==> fresh(r.value) && r.value.dev == blkdev
      ensures !HeaderMatches(old(blkdev[..])) ==>
        r.Ok? && r.value.fileCount == 0 && r.value.Valid() &&
        blkdev[..] == Overwrite(old(blkdev[..]), 0, HEADER)
      ensures HeaderMatches(old(blkdev[..])) ==>
        blkdev[..] == old(blkdev[..]) &&
        match ReadCount(blkdev[..])
        case Err(e) => r == Err(BadCount(e))
        case Ok(n) =>
          r.Ok? && r.value.fileCount == n &&
          (r.value.Valid() <==> TableIntact(blkdev[..], n))
    {
      var fs := new MyFs(blkdev);
      var header := blkdev[0..HEADER_SIZE];
      if header[..4] != MYFS_MAGIC || header[4] != CURR_VERSION {
        fs.Format();
        return Ok(fs);
      }
      var fetchedFileCount := blkdev[FILE_COUNT_ADDRESS..FILE_COUNT_ADDRESS + FILE_COUNT_SIZE];
      var count := Stoi(CStr(fetchedFileCount));
      if count.Err? {
        return Err(BadCount(count.error));
      }
      fs.fileCount := count.value;
      if TableIntact(blkdev[..], count.value) {
        ghost var es :| |es| == count.value && TableHolds(blkdev[..], es);
        fs.entries := es;
      }
      return Ok(fs);
    }

    /** The device write of the block-device simulator. */
    method DeviceWrite(at: nat, data: Bytes)
      requires at + |data| <= dev.Length
      modifies dev
      ensures dev[..] == Overwrite(old(dev[..]), at, data)
    {
      forall i | at <= i < at + |data| {
        dev[i] := data[i - at];
      }
    }

    /** `format`: writes the header, and only the header. */
    method Format()
      requires Valid()
      modifies dev
      ensures Valid()
      ensures dev[..] == Overwrite(old(dev[..]), 0, HEADER)
    {
      DeviceWrite(0, MYFS_MAGIC + [CURR_VERSION]);
      TableHoldsAfterWrite(old(dev[..]), entries, 0, HEADER);
    }

    /** The destructor: stores the count as a NUL-padded decimal in the count field. */
    method Close()
      requires Valid()
      modifies dev
      ensures Valid()
      ensures dev[..] == Overwrite(old(dev[..]), FILE_COUNT_ADDRESS, EncodeCount(fileCount))
    {
      CountFitsField(fileCount);
      var count := Dec(fileCount);
      count := PadNul(count, FILE_COUNT_SIZE);
      DeviceWrite(FILE_COUNT_ADDRESS, count);
      TableHoldsAfterWrite(old(dev[..]), entries, FILE_COUNT_ADDRESS, count);
    }

    /**
     * The body shared by the table scans: read the slot at offset `i` (slot `k`) and
     * tokenize it with `splitEntry`, giving back the three fields of entry `k`.
     */
    method ReadEntryTokens(i: nat, ghost k: nat) returns (tokens: seq<Bytes>)
      requires Valid() && k < fileCount && i == SlotOffset(k)
      ensures tokens == [entries[k].name, Dec(entries[k].address), Dec(entries[k].size)]
    {
      var entry := dev[i..i + TABLE_ENTRY_SIZE];
      assert SlotHolds(dev[..], entries[k], k);
      assert entry == SlotBytes(dev[..], k) == EncodeSlot(entries[k]);
      SlotTokensOfEncoded(entries[k]);
      tokens := SplitEntry(CStr(entry));
    }

    /**
     * `getEntryInfo`: the first slot, in creation order, whose name token is
     * `fileName`, with its offset and tokens; ENTRY_NOT_FOUND when there is none.
     */
    method GetEntryInfo(fileName: Bytes) returns (info: EntryInfo)
      requires Valid()
      ensures FindName(entries, fileName).None? ==> info == EntryNotFound
      ensures FindName(entries, fileName).Some? ==>
        var k := FindName(entries, fileName).value;
        info == EntryFound(SlotOffset(k), [entries[k].name, Dec(entries[k].address), Dec(entries[k].size)])
    {
      var i: nat := TABLE_START_ADDRESS;
      ghost var k: nat := 0;
      while i < fileCount * TABLE_ENTRY_SIZE
        invariant k <= fileCount && i == SlotOffset(k)
        invariant forall j :: 0 <= j < k ==> entries[j].name != fileName
        decreases fileCount - k
      {
        ScanVisitsExactlyCountSlots(k, fileCount);
        var entryTokens := ReadEntryTokens(i, k);
        if entryTokens[FILE_NAME_INDEX] == fileName {
          return EntryFound(i, entryTokens);
        }
        i := i + TABLE_ENTRY_SIZE;
        k := k + 1;
      }
      return EntryNotFound;
    }

    /** `isFileExists`: whether some slot in use carries the name. */
    method IsFileExists(fileName: Bytes) returns (found: bool)
      requires Valid()
      ensures found <==> FindName(entries, fileName).Some?
    {
      var i: nat := TABLE_START_ADDRESS;
      ghost var k: nat := 0;
      while i < fileCount * TABLE_ENTRY_SIZE
        invariant k <= fileCount && i == SlotOffset(k)
        invariant forall j :: 0 <= j < k ==> entries[j].name != fileName
        decreases fileCount - k
      {
        ScanVisitsExactlyCountSlots(k, fileCount);
        var entryTokens := ReadEntryTokens(i, k);
        if entryTokens[FILE_NAME_INDEX] == fileName {
          return true;
        }
        i := i + TABLE_ENTRY_SIZE;
        k := k + 1;
      }
      return false;
    }

    /**
     * `addTableEntry`: writes the slot for the entry just past the table, at
     * TABLE_START_ADDRESS + fileCount * TABLE_ENTRY_SIZE; the count is the caller's
     * to advance. An entry longer than a slot makes the padding fail before the write.
     */
    method AddTableEntry(fileName: Bytes, fileAddress: nat, fileSize: nat) returns (r: Result<(), FsError>)
      requires Valid()
      modifies dev
      ensures Valid()
      ensures |EncodeEntry(Entry(fileName, fileAddress, fileSize))| > TABLE_ENTRY_SIZE ==>
        r == Err(EntryTooLong) && dev[..] == old(dev[..])
      ensures |EncodeEntry(Entry(fileName, fileAddress, fileSize))| <= TABLE_ENTRY_SIZE ==>
        r == Ok(()) &&
        dev[..] == Overwrite(old(dev[..]), SlotOffset(fileCount), EncodeSlot(Entry(fileName, fileAddress, fileSize)))
    {
      var entry := fileName + [ENTRY_DELIMITER] + Dec(fileAddress) + [ENTRY_DELIMITER] + Dec(fileSize);
      if |entry| > TABLE_ENTRY_SIZE {
        return Err(EntryTooLong);
      }
      entry := PadNul(entry, TABLE_ENTRY_SIZE);
      DeviceWrite(SlotOffset(fileCount), entry);
      TableHoldsAfterWrite(old(dev[..]), entries, SlotOffset(fileCount), entry);
      assert TableHolds(dev[..], entries);
      return Ok(());
    }

    /**
     * `editTableEntry`: "File not found" and no write when no slot is named
     * `entryToEdit`; no write either when the new entry is longer than a slot (its
     * padding fails); otherwise the slot found is overwritten with the new entry.
     */
    method EditTableEntry(entryToEdit: Bytes, fileName: Bytes, fileAddress: nat, fileSize: nat)
      returns (r: Result<(), FsError>)
      requires Valid()
      modifies dev
      ensures FindName(entries, entryToEdit).None? ==> r == Err(FileNotFound) && dev[..] == old(dev[..])
      ensures FindName(entries, entryToEdit).Some? && |EncodeEntry(Entry(fileName, fileAddress, fileSize))| > TABLE_ENTRY_SIZE ==>
        r == Err(EntryTooLong) && dev[..] == old(dev[..])
      ensures FindName(entries, entryToEdit).Some? && |EncodeEntry(Entry(fileName, fileAddress, fileSize))| <= TABLE_ENTRY_SIZE ==>
        r == Ok(()) &&
        dev[..] == Overwrite(old(dev[..]), SlotOffset(FindName(entries, entryToEdit).value),
                             EncodeSlot(Entry(fileName, fileAddress, fileSize)))
    {
      var entryInfo := GetEntryInfo(entryToEdit);
      if entryInfo.EntryNotFound? {
        return Err(FileNotFound);
      }
      var updatedEntry := fileName + [ENTRY_DELIMITER] + Dec(fileAddress) + [ENTRY_DELIMITER] + Dec(fileSize);
      if |updatedEntry| > TABLE_ENTRY_SIZE {
        return Err(EntryTooLong);
      }
      updatedEntry := PadNul(updatedEntry, TABLE_ENTRY_SIZE);
      DeviceWrite(entryInfo.offset, updatedEntry);
      return Ok(());
    }

    /**
     * `create_file`: rejects a name longer than MAX_FILE_NAME and a name already in
     * the table; otherwise appends the entry of the name, the content address of the
     * next creation index and size 0, and advances the count. The `directory` flag is
     * ignored. The engine has no capacity check and, with every slot in use, writes
     * the new slot over the first file's content (`UncheckedAppendClobbersFirstFile`);
     * this model rejects that creation with `TableFull` instead.
     */
    method CreateFile(pathStr: Bytes, directory: bool) returns (r: Result<(), FsError>)
      requires Valid()
      requires NameIsStorable(pathStr)
      modifies this, dev
      ensures Valid() && dev == old(dev)
      ensures |pathStr| > MAX_FILE_NAME ==> r == Err(NameTooLong)
      ensures |pathStr| <= MAX_FILE_NAME && FindName(old(entries), pathStr).Some? ==> r == Err(AlreadyExists)
      ensures |pathStr| <= MAX_FILE_NAME && FindName(old(entries), pathStr).None? && old(fileCount) == MAX_FILES ==>
        r == Err(TableFull)
      ensures r.Err? ==> fileCount == old(fileCount) && entries == old(entries) && dev[..] == old(dev[..])
      ensures r.Ok? <==> |pathStr| <= MAX_FILE_NAME && FindName(old(entries), pathStr).None? && old(fileCount) < MAX_FILES
      ensures r.Ok? ==>
        var e := Entry(pathStr, ContentAddress(old(fileCount)), 0);
        fileCount == old(fileCount) + 1 && entries == old(entries) + [e] &&
        |EncodeEntry(e)| < TABLE_ENTRY_SIZE &&
        dev[..] == Overwrite(old(dev[..]), SlotOffset(old(fileCount)), EncodeSlot(e))
    {
      if |pathStr| > MAX_FILE_NAME {
        return Err(NameTooLong);
      }
      var fileExists := IsFileExists(pathStr);
      if fileExists {
        return Err(AlreadyExists);
      }
      if fileCount == MAX_FILES {
        return Err(TableFull);
      }
      ghost var e := Entry(pathStr, ContentAddress(fileCount), 0);
      EncodedEntryFits(e, fileCount);
      var added := AddTableEntry(pathStr, TABLE_END_ADDRESS + fileCount * FILE_SIZE, 0);
      assert added.Ok?;
      ghost var written := Overwrite(old(dev[..]), SlotOffset(fileCount), EncodeSlot(e));
      assert dev[..] == written;
      TableHoldsAppend(old(dev[..]), entries, e);
      assert TableHolds(written, entries + [e]);
      fileCount := fileCount + 1;
      entries := entries + [e];
      return Ok(());
    }

    /**
     * `get_content`: "File not found" for a name not in the table; otherwise the
     * MAX_FILE_SIZE bytes at the entry's content address, read as a C string.
     */
    method GetContent(pathStr: Bytes) returns (r: Result<Bytes, FsError>)
      requires Valid()
      ensures FindName(entries, pathStr).None? ==> r == Err(FileNotFound)
      ensures FindName(entries, pathStr).Some? ==>
        r == Ok(FileContent(dev[..], FindName(entries, pathStr).value))
    {
      var entryInfo := GetEntryInfo(pathStr);
      if entryInfo.EntryNotFound? {
        return Err(FileNotFound);
      }
      ghost var k := FindName(entries, pathStr).value;
      assert SlotHolds(dev[..], entries[k], k);
      StoiOfDec(entries[k].address);
      assert entryInfo.tokens[FILE_ADDRESS_INDEX] == Dec(ContentAddress(k));
      var address := Stoi(entryInfo.tokens[FILE_ADDRESS_INDEX]).value;
      assert address == ContentAddress(k);
      var fileContents := dev[address..address + MAX_FILE_SIZE];
      assert fileContents == ContentBlock(dev[..], k);
      return Ok(CStr(fileContents));
    }

    /**
     * `set_content`: fails, writing nothing, on content longer than MAX_FILE_SIZE
     * (the padding cannot be built); creates the file first when its name is not in
     * the table (and fails, writing nothing, when that creation is rejected); then
     * records the content length in the slot, keeping its address, and writes the
     * content, NUL-padded, over the first MAX_FILE_SIZE - 1 bytes of the file's block.
     */
    method SetContent(pathStr: Bytes, content: Bytes) returns (r: Result<(), FsError>)
      requires Valid()
      requires NameIsStorable(pathStr)
      modifies this, dev
      ensures Valid() && dev == old(dev)
      ensures r.Err? ==> fileCount == old(fileCount) && entries == old(entries) && dev[..] == old(dev[..])
      ensures |content| > MAX_FILE_SIZE ==> r == Err(ContentTooLong)
      ensures |content| <= MAX_FILE_SIZE && FindName(old(entries), pathStr).None? && |pathStr| > MAX_FILE_NAME ==>
        r == Err(NameTooLong)
      ensures |content| <= MAX_FILE_SIZE && FindName(old(entries), pathStr).None? &&
              |pathStr| <= MAX_FILE_NAME && old(fileCount) == MAX_FILES ==>
        r == Err(TableFull)
      ensures r.Ok? <==>
        |content| <= MAX_FILE_SIZE &&
        (FindName(old(entries), pathStr).Some? || (|pathStr| <= MAX_FILE_NAME && old(fileCount) < MAX_FILES))
      ensures r.Ok? ==>
        var k := TargetIndex(old(entries), pathStr);
        var e := Entry(pathStr, ContentAddress(k), |content|);
        k < MAX_FILES && |EncodeEntry(e)| < TABLE_ENTRY_SIZE &&
        FindName(entries, pathStr) == Some(k) &&
        entries == (if k < |old(entries)| then old(entries)[k := e] else old(entries) + [e]) &&
        dev[..] == Overwrite(Overwrite(old(dev[..]), SlotOffset(k), EncodeSlot(e)),
                             ContentAddress(k), PadNul(content, MAX_FILE_SIZE)[..MAX_FILE_SIZE - 1])
    {
      if |content| > MAX_FILE_SIZE {
        return Err(ContentTooLong);
      }
      ghost var d0 := dev[..];
      ghost var k := TargetIndex(entries, pathStr);
      var entryInfo := GetEntryInfo(pathStr);
      var actualContentLength := |content|;
      var padded := PadNul(content, MAX_FILE_SIZE);
      ghost var e := Entry(pathStr, ContentAddress(k), actualContentLength);
      if entryInfo.EntryNotFound? {
        var created := CreateFile(pathStr, false);
        if created.Err? {
          return Err(created.error);
        }
        FindNameAppend(old(entries), entries[k]);
        entryInfo := GetEntryInfo(pathStr);
        ghost var es1 := entries;
        ghost var created0 := es1[k];
        assert es1 == old(entries) + [created0];
        assert dev[..] == Overwrite(d0, SlotOffset(k), EncodeSlot(created0));
        RecordContent(pathStr, entryInfo, actualContentLength, padded, k);
        OverwriteTwice(d0, SlotOffset(k), EncodeSlot(created0), EncodeSlot(e));
        FindNameReplace(es1, k, e);
        ReplaceAppended(old(entries), created0, e);
      } else {
        RecordContent(pathStr, entryInfo, actualContentLength, padded, k);
        FindNameReplace(old(entries), k, e);
      }
      return Ok(());
    }

    /**
     * The part of `set_content` that runs once the file's entry `k` exists: `stoi` of
     * the address token, the slot rewritten with the new size by `editTableEntry`,
     * then the first MAX_FILE_SIZE - 1 bytes of the padded content written at the
     * address.
     */
    method RecordContent(pathStr: Bytes, entryInfo: EntryInfo, actualContentLength: nat, padded: Bytes, ghost k: nat)
      requires Valid() && FindName(entries, pathStr) == Some(k)
      requires entryInfo == EntryFound(SlotOffset(k), [pathStr, Dec(entries[k].address), Dec(entries[k].size)])
      requires actualContentLength <= MAX_FILE_SIZE && |padded| == MAX_FILE_SIZE
      modifies this, dev
      ensures Valid() && dev == old(dev) && fileCount == old(fileCount)
      ensures var e := Entry(pathStr, ContentAddress(k), actualContentLength);
        |EncodeEntry(e)| < TABLE_ENTRY_SIZE && entries == old(entries)[k := e] &&
        dev[..] == Overwrite(Overwrite(old(dev[..]), SlotOffset(k), EncodeSlot(e)),
                             ContentAddress(k), padded[..MAX_FILE_SIZE - 1])
    {
      ghost var d1 := dev[..];
      ghost var es1 := entries;
      assert SlotHolds(d1, es1[k], k);
      ghost var e := Entry(pathStr, ContentAddress(k), actualContentLength);
      EncodedEntryFits(e, k);
      StoiOfDec(e.address);
      var address := Stoi(entryInfo.tokens[FILE_ADDRESS_INDEX]).value;
      assert address == ContentAddress(k);
      var edited := EditTableEntry(pathStr, entryInfo.tokens[FILE_NAME_INDEX], address, actualContentLength);
      assert edited.Ok?;
      ghost var d2 := Overwrite(d1, SlotOffset(k), EncodeSlot(e));
      assert dev[..] == d2;
      TableHoldsReplace(d1, es1, k, e);
      entries := es1[k := e];
      assert TableHolds(d2, entries);
      var data := padded[..MAX_FILE_SIZE - 1];
      DeviceWrite(address, data);
      TableHoldsAfterWrite(d2, entries, address, data);
      assert TableHolds(dev[..], entries);
    }

    /**
     * `list_dir`: for "/", one entry per slot in use, in creation order, with the
     * slot's name and size and `is_dir` false; any other path is not implemented.
     */
    method ListDir(pathStr: Bytes) returns (r: Result<seq<DirListEntry>, FsError>)
      requires Valid()
      ensures pathStr != ROOT ==> r == Err(NotImplemented)
      ensures pathStr == ROOT ==>
        r.Ok? && |r.value| == fileCount &&
        forall k :: 0 <= k < fileCount ==> r.value[k] == DirListEntry(entries[k].name, false, entries[k].size)
    {
      if pathStr != ROOT {
        return Err(NotImplemented);
      }
      var directoryList: seq<DirListEntry> := [];
      var i: nat := TABLE_START_ADDRESS;
      ghost var k: nat := 0;
      while i < fileCount * TABLE_ENTRY_SIZE
        invariant k <= fileCount && i == SlotOffset(k)
        invariant |directoryList| == k
        invariant forall j :: 0 <= j < k ==>
          directoryList[j] == DirListEntry(entries[j].name, false, entries[j].size)
        decreases fileCount - k
      {
        ScanVisitsExactlyCountSlots(k, fileCount);
        var entryTokens := ReadEntryTokens(i, k);
        assert SlotHolds(dev[..], entries[k], k);
        StoiOfDec(entries[k].size);
        var dle := DirListEntry(entryTokens[FILE_NAME_INDEX], false, Stoi(entryTokens[FILE_SIZE_INDEX]).value);
        directoryList := directoryList + [dle];
        i := i + TABLE_ENTRY_SIZE;
        k := k + 1;
      }
      return Ok(directoryList);
    }
  }

  /** A write outside the slots in use leaves the table as it was. */
  lemma TableHoldsAfterWrite(d: Bytes, es: seq<Entry>, at: nat, data: Bytes)
    requires TableHolds(d, es)
    requires at + |data| <= |d|
    requires at + |data| <= TABLE_START_ADDRESS || SlotOffset(|es|) <= at
    ensures TableHolds(Overwrite(d, at, data), es)
  {
    var d' := Overwrite(d, at, data);
    forall k | 0 <= k < |es| ensures SlotHolds(d', es[k], k) {
      assert SlotHolds(d, es[k], k);
      OverwriteFrame(d, at, data, SlotOffset(k), SlotOffset(k) + TABLE_ENTRY_SIZE);
    }
  }

  /** Appending a well-placed entry with a new name extends the table by that entry. */
  lemma TableHoldsAppend(d: Bytes, es: seq<Entry>, e: Entry)
    requires TableHolds(d, es) && |es| < MAX_FILES
    requires WellPlaced(e, |es|) && FindName(es, e.name).None?
    ensures TableHolds(Overwrite(d, SlotOffset(|es|), EncodeSlot(e)), es + [e])
  {
    var d' := Overwrite(d, SlotOffset(|es|), EncodeSlot(e));
    TableHoldsAfterWrite(d, es, SlotOffset(|es|), EncodeSlot(e));
    OverwriteReadBack(d, SlotOffset(|es|), EncodeSlot(e));
    TableHoldsExtend(d', es, e);
  }

  /** A table followed by a slot holding a well-placed entry with a new name is one entry longer. */
  lemma TableHoldsExtend(d: Bytes, es: seq<Entry>, e: Entry)
    requires TableHolds(d, es) && |es| < MAX_FILES
    requires WellPlaced(e, |es|) && SlotBytes(d, |es|) == EncodeSlot(e)
    requires forall j :: 0 <= j < |es| ==> es[j].name != e.name
    ensures TableHolds(d, es + [e])
  {
    var es' := es + [e];
    forall k | 0 <= k < |es'| ensures SlotHolds(d, es'[k], k) {
      if k < |es| {
        assert es'[k] == es[k] && SlotHolds(d, es[k], k);
      }
    }
    forall i, j | 0 <= i < j < |es'| ensures NameAt(es', i) != NameAt(es', j) {
      if j < |es| {
        assert es'[i] == es[i] && es'[j] == es[j];
        assert NameAt(es, i) != NameAt(es, j);
      }
    }
  }

  /** Rewriting slot `k` with a well-placed entry of the same name replaces entry `k`. */
  lemma TableHoldsReplace(d: Bytes, es: seq<Entry>, k: nat, e: Entry)
    requires TableHolds(d, es) && k < |es|
    requires WellPlaced(e, k) && e.name == es[k].name
    ensures TableHolds(Overwrite(d, SlotOffset(k), EncodeSlot(e)), es[k := e])
  {
    var d' := Overwrite(d, SlotOffset(k), EncodeSlot(e));
    var es' := es[k := e];
    OverwriteReadBack(d, SlotOffset(k), EncodeSlot(e));
    forall j | 0 <= j < |es'| ensures SlotHolds(d', es'[j], j) {
      if j != k {
        assert SlotHolds(d, es[j], j);
        OverwriteFrame(d, SlotOffset(k), EncodeSlot(e), SlotOffset(j), SlotOffset(j) + TABLE_ENTRY_SIZE);
      }
    }
    forall i, j | 0 <= i < j < |es'| ensures NameAt(es', i) != NameAt(es', j) {
      assert NameAt(es, i) != NameAt(es, j);
    }
  }

  /** The device determines the table: two tables held by the same slots are equal. */
  lemma TableDeterminesEntries(d: Bytes, es1: seq<Entry>, es2: seq<Entry>)
    requires TableHolds(d, es1) && TableHolds(d, es2) && |es1| == |es2|
    ensures es1 == es2
  {
    forall k | 0 <= k < |es1| ensures es1[k] == es2[k] {
      assert SlotHolds(d, es1[k], k) && SlotHolds(d, es2[k], k);
      EncodedEntryFits(es1[k], k);
      EncodedEntryFits(es2[k], k);
      EncodeEntryInjective(es1[k], es2[k]);
    }
  }

  /**
   * Content round trip of `set_content` followed by `get_content`: after the slot
   * write and the block write, the block reads back as the content, when the content
   * has no NUL and a NUL follows it inside the block. That holds for content shorter
   * than MAX_FILE_SIZE - 1 bytes; for content of MAX_FILE_SIZE - 1 bytes only when the
   * block's last byte, which is never written, was NUL already.
   */
  lemma ContentRoundTrip(d: Bytes, k: nat, slot: Bytes, content: Bytes)
    requires DEVICE_SIZE <= |d| && k < MAX_FILES && |slot| == TABLE_ENTRY_SIZE
    requires |content| < MAX_FILE_SIZE && NUL !in content
    requires |content| < MAX_FILE_SIZE - 1 || d[ContentAddress(k) + MAX_FILE_SIZE - 1] == NUL
    ensures FileContent(Overwrite(Overwrite(d, SlotOffset(k), slot), ContentAddress(k),
                                  PadNul(content, MAX_FILE_SIZE)[..MAX_FILE_SIZE - 1]), k) == content
  {
    var data := PadNul(content, MAX_FILE_SIZE)[..MAX_FILE_SIZE - 1];
    var d2 := Overwrite(d, SlotOffset(k), slot);
    var d3 := Overwrite(d2, ContentAddress(k), data);
    var block := ContentBlock(d3, k);
    assert block[..MAX_FILE_SIZE - 1] == data;
    var last := ContentAddress(k) + MAX_FILE_SIZE - 1;
    assert block[MAX_FILE_SIZE - 1] == d3[last] == d2[last] == d[last];
    assert block[..|content|] == content;
    assert block == content + block[|content|..];
    if |content| < MAX_FILE_SIZE - 1 {
      assert block[|content|] == data[|content|] == NUL;
    }
    CStrOfTerminated(content, block[|content|..]);
  }

  /**
   * Persistence across a close and a reopen: after the destructor writes the count
   * of a table into a device whose header matches, the constructor takes the recover
   * branch, loads the same count, and the table is still held by the device.
   */
  lemma CloseThenReopen(d: Bytes, es: seq<Entry>)
    requires TableHolds(d, es) && HeaderMatches(d)
    ensures |Dec(|es|)| < FILE_COUNT_SIZE
    ensures var d' := Overwrite(d, FILE_COUNT_ADDRESS, EncodeCount(|es|));
      HeaderMatches(d') && ReadCount(d') == Ok(|es|) && TableIntact(d', |es|)
  {
    CountFitsField(|es|);
    var d' := Overwrite(d, FILE_COUNT_ADDRESS, EncodeCount(|es|));
    CountPersists(d, |es|);
    assert d'[..4] == d[..HEADER_SIZE][..4] && d'[4] == d[..HEADER_SIZE][4];
    TableHoldsAfterWrite(d, es, FILE_COUNT_ADDRESS, EncodeCount(|es|));
  }

  /**
   * `set_content` followed by `get_content` on the same name gives the content back,
   * for NUL-free content that leaves a NUL in the file's block: shorter than
   * MAX_FILE_SIZE - 1 bytes, or exactly that long over a block whose last byte is NUL.
   */
  method SetThenGet(fs: MyFs, name: Bytes, content: Bytes) returns (r: Result<Bytes, FsError>)
    requires fs.Valid() && NameIsStorable(name) && |name| <= MAX_FILE_NAME
    requires FindName(fs.entries, name).None? ==> fs.fileCount < MAX_FILES
    requires NUL !in content && |content| <= MAX_FILE_SIZE - 1
    requires |content| == MAX_FILE_SIZE - 1 ==>
      fs.dev[ContentAddress(TargetIndex(fs.entries, name)) + MAX_FILE_SIZE - 1] == NUL
    modifies fs, fs.dev
    ensures r == Ok(content)
  {
    ghost var d0 := fs.dev[..];
    ghost var k := TargetIndex(fs.entries, name);
    var written := fs.SetContent(name, content);
    ghost var e := Entry(name, ContentAddress(k), |content|);
    ContentRoundTrip(d0, k, EncodeSlot(e), content);
    r := fs.GetContent(name);
  }

  /**
   * The append of `create_file` as the engine is written, with no capacity check,
   * once all MAX_FILES slots are in use: the next slot starts below the first
   * content block and ends inside it, so its last bytes land on the first file's
   * content. For an entry short enough to end before that block, the bytes that land
   * there are NUL padding, and the first file then reads back as empty content.
   */
  lemma UncheckedAppendClobbersFirstFile(d: Bytes, e: Entry)
    requires DEVICE_SIZE <= |d|
    requires |EncodeEntry(e)| <= ContentAddress(0) - SlotOffset(MAX_FILES)
    ensures SlotOffset(MAX_FILES) < ContentAddress(0) < SlotOffset(MAX_FILES) + TABLE_ENTRY_SIZE
    ensures FileContent(Overwrite(d, SlotOffset(MAX_FILES), EncodeSlot(e)), 0) == []
  {
    var d' := Overwrite(d, SlotOffset(MAX_FILES), EncodeSlot(e));
    var at := ContentAddress(0) - SlotOffset(MAX_FILES);
    assert EncodeSlot(e)[at] == NUL;
    assert ContentBlock(d', 0)[0] == d'[ContentAddress(0)] == NUL;
  }
}
