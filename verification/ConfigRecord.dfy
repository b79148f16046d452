/** The 32-byte mode record that unified_config.c keeps in flash. */
module ConfigRecord {
  import opened Bytes
  import opened ConfigFrames
  import opened Widths

  const RECORD_SIZE := 32
  const RECORD_COVERED := 28
  const RECORD_MAGIC := 0x444D_4C45
  const RECORD_VERSION := 1
  const MODE_RC: uint8 := 0
  const MODE_AIRPORT: uint8 := 1
  const DEFAULT_BAUD: uint32 := 460800

  predicate BaudIsSupported(baud: uint32) {
    || baud == 4800 || baud == 9600 || baud == 19200 || baud == 38400 || baud == 57600
    || baud == 115200 || baud == 230400 || baud == 460800 || baud == 921600
  }

  /** `record_is_valid` for a unit of this role */
  predicate RecordIsValid(crc: Checksum, role: uint8, r: seq<uint8>) {
    && |r| == RECORD_SIZE
    && Read32(r, 0) == RECORD_MAGIC
    && Read16(r, 4) == RECORD_VERSION
    && Read16(r, 6) == RECORD_SIZE
    && r[8] == role
    && r[9] <= MODE_AIRPORT
    && BaudIsSupported(Read32(r, 24))
    && crc(r[..RECORD_COVERED]) == Read32(r, 28)
  }

  function Covered(role: uint8, mode: uint8, baud: uint32): (r: seq<uint8>)
    ensures |r| == RECORD_COVERED
  {
    Le32(RECORD_MAGIC) + Le16(RECORD_VERSION) + Le16(RECORD_SIZE) + [role, mode] + Zeros(14) + Le32(baud)
  }

  function BuildRecord(crc: Checksum, role: uint8, mode: uint8, baud: uint32): (r: seq<uint8>)
    ensures |r| == RECORD_SIZE
  {
    Covered(role, mode, baud) + Le32(crc(Covered(role, mode, baud)))
  }

  lemma CoveredFields(role: uint8, mode: uint8, baud: uint32, tail: seq<uint8>)
    ensures var r := Covered(role, mode, baud) + tail;
            && Read32(r, 0) == RECORD_MAGIC && Read16(r, 4) == RECORD_VERSION && Read16(r, 6) == RECORD_SIZE
            && r[8] == role && r[9] == mode && Read32(r, 24) == baud
  {
    var r := Covered(role, mode, baud) + tail;
    var a := Le32(RECORD_MAGIC);
    var b := a + Le16(RECORD_VERSION);
    var c := b + Le16(RECORD_SIZE);
    var d := c + [role, mode] + Zeros(14);
    assert Covered(role, mode, baud) == d + Le32(baud);
    assert d[8] == role && d[9] == mode;
    assert r == d + Le32(baud) + tail;
    ReadAt32(d, baud, tail);
    assert r[..4] == a && r[4..6] == Le16(RECORD_VERSION) && r[6..8] == Le16(RECORD_SIZE);
    assert r[0] == a[0] && r[1] == a[1] && r[2] == a[2] && r[3] == a[3];
    assert r[4] == r[4..6][0] && r[5] == r[4..6][1] && r[6] == r[6..8][0] && r[7] == r[6..8][1];
  }

  /** What store_config writes, a later load accepts, with the same content. */
  lemma BuiltRecordIsValid(crc: Checksum, role: uint8, mode: uint8, baud: uint32)
    requires mode <= MODE_AIRPORT && BaudIsSupported(baud)
    ensures var r := BuildRecord(crc, role, mode, baud);
            RecordIsValid(crc, role, r) && r[9] == mode && Read32(r, 24) == baud
  {
    var body := Covered(role, mode, baud);
    CoveredFields(role, mode, baud, Le32(crc(body)));
    ReadAt32(body, crc(body), []);
    assert body + Le32(crc(body)) + [] == body + Le32(crc(body));
    assert (body + Le32(crc(body)))[..RECORD_COVERED] == body;
  }

  // ----- The stored configuration -------------------------------------------------

  /** The configuration in RAM and the record area of the flash. */
  datatype Store = Store(role: uint8, mode: uint8, baud: uint32, recordValid: bool, flash: seq<uint8>)

  /** Erase, write and read back: did each report success, and what the record area holds
      afterwards. Nothing is assumed about a failing flash. */
  datatype FlashOutcome = FlashOutcome(eraseOk: bool, writeOk: bool, readOk: bool, content: seq<uint8>) {
    predicate Sane() { |content| == RECORD_SIZE }
  }

  /** RAM claims a valid record only if flash holds one that says the same. */
  predicate StoreInv(crc: Checksum, s: Store) {
    && |s.flash| == RECORD_SIZE
    && s.mode <= MODE_AIRPORT && BaudIsSupported(s.baud)
    && (s.recordValid ==> RecordIsValid(crc, s.role, s.flash) && s.mode == s.flash[9] && s.baud == Read32(s.flash, 24))
    && (!s.recordValid ==> s.mode == MODE_RC && s.baud == DEFAULT_BAUD)
  }

  function LoadRecord(crc: Checksum, s: Store, readOk: bool): (s': Store)
    requires |s.flash| == RECORD_SIZE
  {
    if readOk && RecordIsValid(crc, s.role, s.flash) then
      s.(recordValid := true, mode := s.flash[9], baud := Read32(s.flash, 24))
    else
      s.(recordValid := false, mode := MODE_RC, baud := DEFAULT_BAUD)
  }

  predicate Stored(crc: Checksum, role: uint8, mode: uint8, baud: uint32, o: FlashOutcome) {
    && o.eraseOk && o.writeOk && o.readOk
    && o.content == BuildRecord(crc, role, mode, baud)
    && RecordIsValid(crc, role, o.content)
  }

  function StoreConfig(crc: Checksum, s: Store, mode: uint8, baud: uint32, o: FlashOutcome): (s': Store) {
    if Stored(crc, s.role, mode, baud, o) then
      s.(flash := o.content, recordValid := true, mode := mode, baud := baud)
    else
      s.(flash := o.content, recordValid := false, mode := MODE_RC, baud := DEFAULT_BAUD)
  }

  lemma LoadRecordInv(crc: Checksum, s: Store, readOk: bool)
    requires |s.flash| == RECORD_SIZE
    ensures StoreInv(crc, LoadRecord(crc, s, readOk))
  {
  }

  /** Storing fails only when the flash does. */
  lemma StoreConfigInv(crc: Checksum, s: Store, mode: uint8, baud: uint32, o: FlashOutcome)
    requires StoreInv(crc, s) && o.Sane() && mode <= MODE_AIRPORT && BaudIsSupported(baud)
    ensures StoreInv(crc, StoreConfig(crc, s, mode, baud, o))
    ensures StoreConfig(crc, s, mode, baud, o).recordValid
       <==> o.eraseOk && o.writeOk && o.readOk && o.content == BuildRecord(crc, s.role, mode, baud)
    ensures Stored(crc, s.role, mode, baud, o) <==> StoreConfig(crc, s, mode, baud, o).recordValid
  {
    BuiltRecordIsValid(crc, s.role, mode, baud);
  }

  /** The SET_MODE command: the new store and the result code of the answer. */
  function SetMode(crc: Checksum, s: Store, payload: seq<uint8>, o: FlashOutcome): (r: (Store, uint8)) {
    if |payload| != 5 || payload[0] > MODE_AIRPORT then (s, 1)
    else
      var baud := Read32(payload, 1);
      if !BaudIsSupported(baud) then (s, 3)
      else if s.recordValid && payload[0] == s.mode && baud == s.baud then (s, 0)
      else (StoreConfig(crc, s, payload[0], baud, o), if Stored(crc, s.role, payload[0], baud, o) then 0 else 2)
  }

  lemma SetModeInv(crc: Checksum, s: Store, payload: seq<uint8>, o: FlashOutcome)
    requires StoreInv(crc, s) && o.Sane()
    ensures StoreInv(crc, SetMode(crc, s, payload, o).0) && SetMode(crc, s, payload, o).0.role == s.role
  {
    if |payload| == 5 && payload[0] <= MODE_AIRPORT {
      var baud := Read32(payload, 1);
      if BaudIsSupported(baud) {
        StoreConfigInv(crc, s, payload[0], baud, o);
      }
    }
  }

  /** A payload of a mode, RC or AIRPORT, and four bytes of baud rate. */
  predicate NamesMode(payload: seq<uint8>) {
    |payload| == 5 && (payload[0] == MODE_RC || payload[0] == MODE_AIRPORT)
  }

  /** RAM has this configuration already, with a record to back it. */
  predicate IsCurrent(s: Store, mode: uint8, baud: uint32) {
    s.recordValid && s.mode == mode && s.baud == baud
  }

  /** Every flash operation succeeds and the record reads back as written. */
  predicate FlashWorks(crc: Checksum, s: Store, mode: uint8, baud: uint32, o: FlashOutcome) {
    o.eraseOk && o.writeOk && o.readOk && o.content == BuildRecord(crc, s.role, mode, baud)
  }

  /** Each answer tells exactly one thing: 1 a malformed request or an unknown mode, 3 an
      unknown baud rate, 2 a flash that failed, 0 that the configuration is in force. */
  lemma SetModeAnswers(crc: Checksum, s: Store, payload: seq<uint8>, o: FlashOutcome)
    requires StoreInv(crc, s) && o.Sane()
    ensures SetMode(crc, s, payload, o).1 == 1 <==> !NamesMode(payload)
    ensures SetMode(crc, s, payload, o).1 == 3 <==> NamesMode(payload) && !BaudIsSupported(Read32(payload, 1))
    ensures SetMode(crc, s, payload, o).1 == 0
       <==> && NamesMode(payload) && BaudIsSupported(Read32(payload, 1))
            && (|| IsCurrent(s, payload[0], Read32(payload, 1))
                || FlashWorks(crc, s, payload[0], Read32(payload, 1), o))
    ensures SetMode(crc, s, payload, o).1 == 2
       <==> && NamesMode(payload) && BaudIsSupported(Read32(payload, 1))
            && !IsCurrent(s, payload[0], Read32(payload, 1))
            && !FlashWorks(crc, s, payload[0], Read32(payload, 1), o)
  {
    if NamesMode(payload) && BaudIsSupported(Read32(payload, 1)) {
      StoreConfigInv(crc, s, payload[0], Read32(payload, 1), o);
    }
  }

  /** What the unit is left with: the asked configuration, the old one untouched, or, after
      a failed flash, RC at the default rate without a record. */
  lemma SetModeLeaves(crc: Checksum, s: Store, payload: seq<uint8>, o: FlashOutcome)
    requires StoreInv(crc, s) && o.Sane()
    ensures var (s', code) := SetMode(crc, s, payload, o);
            && (code == 0 ==> IsCurrent(s', payload[0], Read32(payload, 1)))
            && (code == 1 || code == 3 ==> s' == s)
            && (code == 2 ==> !s'.recordValid && s'.mode == MODE_RC && s'.baud == DEFAULT_BAUD)
  {
    SetModeAnswers(crc, s, payload, o);
    if NamesMode(payload) && BaudIsSupported(Read32(payload, 1)) {
      StoreConfigInv(crc, s, payload[0], Read32(payload, 1), o);
    }
  }

  /** The baud rates that the host tool offers, in its order. */
  function OfferedBauds(): seq<uint32> { [4800, 9600, 19200, 38400, 57600, 115200, 230400, 460800, 921600] }

  /** The unit supports exactly what the tool offers. */
  lemma OfferedIsSupported(baud: uint32)
    ensures BaudIsSupported(baud) <==> baud in OfferedBauds()
  {
    var b := OfferedBauds();
    assert b[0] == 4800 && b[1] == 9600 && b[2] == 19200 && b[3] == 38400 && b[4] == 57600;
    assert b[5] == 115200 && b[6] == 230400 && b[7] == 460800 && b[8] == 921600;
  }

  /** The answer to GET_CONFIG and the start-up say the same: a record is loaded exactly when
      the flash can be read and holds a valid one. */
  lemma LoadTellsTheRecord(crc: Checksum, s: Store, readOk: bool)
    requires |s.flash| == RECORD_SIZE
    ensures var s' := LoadRecord(crc, s, readOk);
            && (s'.recordValid <==> readOk && RecordIsValid(crc, s.role, s.flash))
            && s'.role == s.role && s'.flash == s.flash
  {
  }

  /** An answer of 0 means that flash holds what was asked for, so the next start loads it. */
  lemma AnsweredConfigIsLoaded(crc: Checksum, s: Store, payload: seq<uint8>, o: FlashOutcome)
    requires StoreInv(crc, s) && o.Sane() && SetMode(crc, s, payload, o).1 == 0
    ensures var s' := SetMode(crc, s, payload, o).0;
            && |payload| == 5 && LoadRecord(crc, s', true) == s'
            && s'.recordValid && s'.mode == payload[0] && s'.baud == Read32(payload, 1)
  {
    SetModeInv(crc, s, payload, o);
  }
}
