/**
 * The textual slot codec: a table entry is `name|address|size` with both numbers in
 * decimal, NUL-padded to TABLE_ENTRY_SIZE bytes; it is read back by cutting the slot
 * at its first NUL, tokenizing with `splitEntry` and `stoi`-ing the numbers.
 */
module Slot {
  import opened Wrappers
  import opened ByteStrings
  import opened Decimal
  import opened Helper
  import opened Layout

  /** One table entry: the three fields of a slot. */
  datatype Entry = Entry(name: Bytes, address: nat, size: nat)

  /** A name the slot codec can carry: no delimiter, no NUL. */
  predicate NameIsStorable(name: Bytes) {
    ENTRY_DELIMITER !in name && NUL !in name
  }

  /** The text of a slot: the name, the decimal address and the decimal size, separated by the delimiter. */
  function EncodeEntry(e: Entry): (s: Bytes)
    ensures NameIsStorable(e.name) ==> NUL !in s
  {
    NonDigitNotInNumeral(Dec(e.address), NUL);
    NonDigitNotInNumeral(Dec(e.size), NUL);
    e.name + [ENTRY_DELIMITER] + Dec(e.address) + [ENTRY_DELIMITER] + Dec(e.size)
  }

  /** The slot written for `e`: its entry NUL-padded to TABLE_ENTRY_SIZE. */
  function EncodeSlot(e: Entry): (s: Bytes)
    requires |EncodeEntry(e)| <= TABLE_ENTRY_SIZE
    ensures |s| == TABLE_ENTRY_SIZE
  {
    PadNul(EncodeEntry(e), TABLE_ENTRY_SIZE)
  }

  /** The tokens `splitEntry(entry)` yields for a slot buffer (cut at its first NUL). */
  function SlotTokens(slot: Bytes): seq<Bytes> {
    Split(CStr(slot))
  }

  /**
   * The entry a token vector stands for: name, `stoi` of the address, `stoi` of the
   * size. Tokens past the third are ignored, as the engine reads only indices 0-2.
   */
  function DecodeTokens(tokens: seq<Bytes>): (r: Option<Entry>)
    ensures r.Some? ==> |tokens| >= 3 && r.value.name == tokens[FILE_NAME_INDEX]
    ensures r.Some? ==> r.value.address <= INT_MAX && r.value.size <= INT_MAX
  {
    if |tokens| >= 3 && Stoi(tokens[FILE_ADDRESS_INDEX]).Ok? && Stoi(tokens[FILE_SIZE_INDEX]).Ok? then
      Some(Entry(tokens[FILE_NAME_INDEX], Stoi(tokens[FILE_ADDRESS_INDEX]).value, Stoi(tokens[FILE_SIZE_INDEX]).value))
    else
      None
  }

  /** The entry a slot holds, if it holds a well-formed one; its name is always storable. */
  function DecodeSlot(slot: Bytes): (r: Option<Entry>)
    ensures r.Some? ==> NameIsStorable(r.value.name)
    ensures r.Some? ==> r.value.address <= INT_MAX && r.value.size <= INT_MAX
  {
    SlotTokensAreNulFree(slot);
    SplitTokensHaveNoDelimiter(CStr(slot));
    DecodeTokens(SlotTokens(slot))
  }

  /** The NUL padding never reaches a token: every token of a slot is NUL-free. */
  lemma SlotTokensAreNulFree(slot: Bytes)
    ensures forall t :: t in SlotTokens(slot) ==> NUL !in t
  {
    SplitTokensComeFromInput(CStr(slot));
  }

  /**
   * An entry whose name is storable and whose encoding leaves room for a terminating
   * NUL is tokenized into its three fields.
   */
  lemma SlotTokensOfEncoded(e: Entry)
    requires NameIsStorable(e.name)
    requires |EncodeEntry(e)| < TABLE_ENTRY_SIZE
    ensures SlotTokens(EncodeSlot(e)) == [e.name, Dec(e.address), Dec(e.size)]
  {
    var s := EncodeEntry(e);
    NonDigitNotInNumeral(Dec(e.address), NUL);
    NonDigitNotInNumeral(Dec(e.size), NUL);
    assert NUL !in s;
    CStrOfPadded(s, TABLE_ENTRY_SIZE);
    SplitEntryFields(e.name, e.address, e.size);
  }

  /**
   * Round trip of the slot codec: such an entry, with numbers that fit an `int`, is
   * decoded back to itself.
   */
  lemma DecodeEncodeSlot(e: Entry)
    requires NameIsStorable(e.name)
    requires e.address <= INT_MAX && e.size <= INT_MAX
    requires |EncodeEntry(e)| < TABLE_ENTRY_SIZE
    ensures DecodeSlot(EncodeSlot(e)) == Some(e)
  {
    SlotTokensOfEncoded(e);
    StoiOfDec(e.address);
    StoiOfDec(e.size);
  }

  /** Two storable entries with the same slot encoding are the same entry. */
  lemma EncodeEntryInjective(e1: Entry, e2: Entry)
    requires NameIsStorable(e1.name) && NameIsStorable(e2.name)
    requires e1.address <= INT_MAX && e1.size <= INT_MAX
    requires e2.address <= INT_MAX && e2.size <= INT_MAX
    requires |EncodeEntry(e1)| < TABLE_ENTRY_SIZE && |EncodeEntry(e2)| < TABLE_ENTRY_SIZE
    requires EncodeSlot(e1) == EncodeSlot(e2)
    ensures e1 == e2
  {
    DecodeEncodeSlot(e1);
    DecodeEncodeSlot(e2);
  }

  /**
   * The entries the engine writes fit a slot with room to spare: a name of at most
   * MAX_FILE_NAME bytes, the content address of a slot of the table, a size of at
   * most MAX_FILE_SIZE.
   */
  lemma EncodedEntryFits(e: Entry, k: nat)
    requires |e.name| <= MAX_FILE_NAME
    requires k < MAX_FILES && e.address == ContentAddress(k)
    requires e.size <= MAX_FILE_SIZE
    ensures |EncodeEntry(e)| < TABLE_ENTRY_SIZE
    ensures e.address <= INT_MAX && e.size <= INT_MAX
  {
    LayoutAssumptions();
    DecLengthMonotone(e.address, ContentAddress(MAX_FILES - 1));
    DecLengthMonotone(e.size, MAX_FILE_SIZE);
  }
}
