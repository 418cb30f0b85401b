/**
 * The on-disk layout: superblock header at offset 0, the NUL-padded decimal file
 * count after it, the table of fixed-size slots, and the content region of
 * fixed-size per-file blocks.
 *
 * The header that defines FILE_COUNT_ADDRESS, FILE_COUNT_SIZE, TABLE_START_ADDRESS,
 * TABLE_ENTRY_SIZE, TABLE_END_ADDRESS and FILE_SIZE is not part of this model; the
 * values below are an ASSUMED layout. `LayoutAssumptions` states the relations
 * between them that the slot and count width proofs use; several other proofs
 * (the scan bound, the header and count read-back, the region bounds of
 * `SlotOffset` and `ContentAddress`) read the constant values directly.
 */
module Layout {
  import opened Wrappers
  import opened ByteStrings
  import opened Decimal

  /** sizeof(myfs_header): `char magic[4]` followed by `uint8_t version`. */
  const HEADER_SIZE: nat := 5
  /** MYFS_MAGIC, the bytes "MYFS". */
  const MYFS_MAGIC: Bytes := [77, 89, 70, 83]
  /** CURR_VERSION. */
  const CURR_VERSION: byte := 3

  const FILE_COUNT_ADDRESS: nat := 5
  const FILE_COUNT_SIZE: nat := 11
  const TABLE_START_ADDRESS: nat := 16
  const TABLE_ENTRY_SIZE: nat := 32
  const TABLE_END_ADDRESS: nat := 1024
  const FILE_SIZE: nat := 1024

  /** MAX_FILE_NAME and MAX_FILE_SIZE of Helper.h. */
  const MAX_FILE_NAME: nat := 20
  const MAX_FILE_SIZE: nat := 1024

  /** How many slots fit between TABLE_START_ADDRESS and TABLE_END_ADDRESS. */
  const MAX_FILES: nat := (TABLE_END_ADDRESS - TABLE_START_ADDRESS) / TABLE_ENTRY_SIZE

  /** The bytes the layout addresses: the table region and one block per slot. */
  const DEVICE_SIZE: nat := TABLE_END_ADDRESS + MAX_FILES * FILE_SIZE

  /**
   * The relations between the layout constants that the proofs depend on: the
   * regions do not overlap, the scans visit exactly the slots in use, the longest
   * entry the engine writes (a MAX_FILE_NAME-byte name, two delimiters, the numeral
   * of the last content address and that of MAX_FILE_SIZE) leaves room for a NUL in
   * a slot, and the numeral of a full table's count leaves room for one in the
   * count field.
   */
  lemma LayoutAssumptions()
    ensures HEADER_SIZE <= FILE_COUNT_ADDRESS
    ensures FILE_COUNT_ADDRESS + FILE_COUNT_SIZE <= TABLE_START_ADDRESS
    ensures TABLE_START_ADDRESS < TABLE_ENTRY_SIZE
    ensures TABLE_START_ADDRESS + MAX_FILES * TABLE_ENTRY_SIZE <= TABLE_END_ADDRESS
    ensures MAX_FILE_SIZE <= FILE_SIZE
    ensures 1 <= MAX_FILES
    ensures MAX_FILE_NAME + 2 + |Dec(ContentAddress(MAX_FILES - 1))| + |Dec(MAX_FILE_SIZE)| < TABLE_ENTRY_SIZE
    ensures ContentAddress(MAX_FILES - 1) <= INT_MAX && MAX_FILE_SIZE <= INT_MAX
    ensures MAX_FILES <= INT_MAX && |Dec(MAX_FILES)| < FILE_COUNT_SIZE
  {
    assert Pow10(2) == 100 && Pow10(4) == 10000 && Pow10(5) == 100000;
    DecLength(ContentAddress(MAX_FILES - 1), 5);
    DecLength(MAX_FILE_SIZE, 4);
    DecLength(MAX_FILES, 2);
  }

  /** Byte offset of slot `k`. */
  function SlotOffset(k: nat): (o: nat)
    ensures k < MAX_FILES ==> TABLE_START_ADDRESS <= o && o + TABLE_ENTRY_SIZE <= TABLE_END_ADDRESS
  {
    TABLE_START_ADDRESS + k * TABLE_ENTRY_SIZE
  }

  /** Content address of the `k`-th file created. */
  function ContentAddress(k: nat): (a: nat)
    ensures TABLE_END_ADDRESS <= a
    ensures k < MAX_FILES ==> a + FILE_SIZE <= DEVICE_SIZE
  {
    TABLE_END_ADDRESS + k * FILE_SIZE
  }

  /**
   * The table scans start at TABLE_START_ADDRESS, step by TABLE_ENTRY_SIZE and stop
   * once the offset reaches `n * TABLE_ENTRY_SIZE` (the start offset is not added to
   * the bound). Because TABLE_START_ADDRESS < TABLE_ENTRY_SIZE, the offset of slot `k`
   * is below the bound exactly when `k < n`: the scans visit slots 0 .. n-1.
   */
  lemma ScanVisitsExactlyCountSlots(k: nat, n: nat)
    ensures SlotOffset(k) < n * TABLE_ENTRY_SIZE <==> k < n
  {
  }

  /** The bytes of slot `k` of device image `d`. */
  function SlotBytes(d: Bytes, k: nat): (s: Bytes)
    requires DEVICE_SIZE <= |d| && k < MAX_FILES
    ensures |s| == TABLE_ENTRY_SIZE
  {
    d[SlotOffset(k)..SlotOffset(k) + TABLE_ENTRY_SIZE]
  }

  /** The MAX_FILE_SIZE bytes `get_content` reads for the `k`-th file. */
  function ContentBlock(d: Bytes, k: nat): (b: Bytes)
    requires DEVICE_SIZE <= |d| && k < MAX_FILES
    ensures |b| == MAX_FILE_SIZE
  {
    d[ContentAddress(k)..ContentAddress(k) + MAX_FILE_SIZE]
  }

  /** The header `format` writes. */
  const HEADER: Bytes := MYFS_MAGIC + [CURR_VERSION]

  /**
   * The check of the constructor: `strncmp` over the 4 magic bytes (the magic has
   * no NUL, so this is byte equality) and the version byte.
   */
  predicate HeaderMatches(d: Bytes)
    requires HEADER_SIZE <= |d|
    ensures HeaderMatches(d) <==> d[..HEADER_SIZE] == HEADER
  {
    assert d[..HEADER_SIZE] == d[..4] + [d[4]];
    d[..4] == MYFS_MAGIC && d[4] == CURR_VERSION
  }

  /** The file-count field: `to_string(n)` NUL-padded to FILE_COUNT_SIZE bytes. */
  function EncodeCount(n: nat): (f: Bytes)
    requires |Dec(n)| <= FILE_COUNT_SIZE
    ensures |f| == FILE_COUNT_SIZE
    ensures |Dec(n)| < FILE_COUNT_SIZE ==> CStr(f) == Dec(n)
  {
    assert |Dec(n)| < FILE_COUNT_SIZE ==> CStr(PadNul(Dec(n), FILE_COUNT_SIZE)) == Dec(n) by {
      NonDigitNotInNumeral(Dec(n), NUL);
      CStrOfPadded(Dec(n), FILE_COUNT_SIZE);
    }
    PadNul(Dec(n), FILE_COUNT_SIZE)
  }

  /** The count the constructor loads: `stoi` of the field read as a C string. */
  function ReadCount(d: Bytes): (r: Result<nat, StoiError>)
    requires DEVICE_SIZE <= |d|
    ensures r == Err(InvalidArgument) <==> !IsDigit(d[FILE_COUNT_ADDRESS])
    ensures r.Ok? ==> r.value <= INT_MAX
  {
    Stoi(CStr(d[FILE_COUNT_ADDRESS..FILE_COUNT_ADDRESS + FILE_COUNT_SIZE]))
  }

  /** Writing the header makes the header check succeed. */
  lemma FormattedHeaderMatches(d: Bytes)
    requires DEVICE_SIZE <= |d|
    ensures HeaderMatches(Overwrite(d, 0, HEADER))
  {
    assert Overwrite(d, 0, HEADER)[..4] == MYFS_MAGIC;
  }

  /**
   * Count persistence: after the field is written with `n` (whose numeral leaves
   * room for a terminating NUL), reading the count gives back `n`, and the header is
   * untouched.
   */
  lemma CountPersists(d: Bytes, n: nat)
    requires DEVICE_SIZE <= |d|
    requires n <= INT_MAX && |Dec(n)| < FILE_COUNT_SIZE
    ensures ReadCount(Overwrite(d, FILE_COUNT_ADDRESS, EncodeCount(n))) == Ok(n)
    ensures Overwrite(d, FILE_COUNT_ADDRESS, EncodeCount(n))[..HEADER_SIZE] == d[..HEADER_SIZE]
  {
    var d' := Overwrite(d, FILE_COUNT_ADDRESS, EncodeCount(n));
    assert d'[FILE_COUNT_ADDRESS..FILE_COUNT_ADDRESS + FILE_COUNT_SIZE] == EncodeCount(n);
    NonDigitNotInNumeral(Dec(n), NUL);
    CStrOfPadded(Dec(n), FILE_COUNT_SIZE);
    StoiOfDec(n);
  }

  /** Every count the table can hold is persisted with room for the terminator. */
  lemma CountFitsField(n: nat)
    requires n <= MAX_FILES
    ensures n <= INT_MAX && |Dec(n)| < FILE_COUNT_SIZE
  {
    LayoutAssumptions();
    DecLengthMonotone(n, MAX_FILES);
  }
}
