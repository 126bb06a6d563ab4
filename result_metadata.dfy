/** `mysqlshdk::db::mysql::Result` (mysqlshdk/libs/db/mysql/result.cc): the
    classification of a column's raw MySQL type, and the bookkeeping a
    result keeps while rows and warnings are read from it. The C API
    (`MYSQL_RES`, `mysql_fetch_row`) and the session are not part of this
    model: the rows of a result set are given as a sequence, and what the
    session answers is passed in as parameters. */
module ResultMetadata {
  import opened Basics

  /** The `enum_field_types` codes `map_data_type` handles; `Unlisted` is
      any other code. */
  datatype RawType =
    | TypeNull | TypeNewDecimal | TypeDecimal | TypeDate | TypeNewDate
    | TypeTime2 | TypeTime | TypeString | TypeVarchar | TypeVarString
    | TypeTinyBlob | TypeMediumBlob | TypeLongBlob | TypeBlob | TypeGeometry
    | TypeJson | TypeYear | TypeTiny | TypeShort | TypeInt24 | TypeLong
    | TypeLongLong | TypeFloat | TypeDouble | TypeDatetime | TypeTimestamp
    | TypeDatetime2 | TypeTimestamp2 | TypeBit | TypeEnum | TypeSet
    | Unlisted(code: int)

  /** The flag bits `map_data_type` looks at: `UNSIGNED_FLAG`, `ENUM_FLAG`
      and `SET_FLAG`. */
  datatype Flags = Flags(unsigned: bool, enumFlag: bool, setFlag: bool)

  /** `mysqlshdk::db::Type`. */
  datatype Type =
    | Null | String | Integer | UInteger | Float | Double | Decimal | Bytes
    | Geometry | Json | Date | Time | DateTime | Bit | Enum | Set

  /** The raw integer types (`YEAR` counts as one). */
  predicate IsIntegerRaw(raw: RawType) {
    raw in {TypeYear, TypeTiny, TypeShort, TypeInt24, TypeLong, TypeLongLong}
  }

  /** The raw character-string types. */
  predicate IsStringRaw(raw: RawType) {
    raw in {TypeString, TypeVarchar, TypeVarString}
  }

  /** `map_data_type`: every listed code has a type, and exactly the
      unlisted codes throw `logic_error("Invalid type")`. */
  function MapDataType(raw: RawType, flags: Flags): (r: Basics.Result<Type>)
    ensures r.Err? <==> raw.Unlisted?
    ensures r.Err? ==> r.msg == "Invalid type"
  {
    match raw
    case TypeNull => Ok(Null)
    case TypeNewDecimal | TypeDecimal => Ok(Decimal)
    case TypeDate | TypeNewDate => Ok(Date)
    case TypeTime2 | TypeTime => Ok(Time)
    case TypeString | TypeVarchar | TypeVarString =>
      if flags.enumFlag then Ok(Enum)
      else if flags.setFlag then Ok(Set)
      else Ok(String)
    case TypeTinyBlob | TypeMediumBlob | TypeLongBlob | TypeBlob => Ok(Bytes)
    case TypeGeometry => Ok(Geometry)
    case TypeJson => Ok(Json)
    case TypeYear | TypeTiny | TypeShort | TypeInt24 | TypeLong | TypeLongLong =>
      if flags.unsigned then Ok(UInteger) else Ok(Integer)
    case TypeFloat => Ok(Float)
    case TypeDouble => Ok(Double)
    case TypeDatetime | TypeTimestamp | TypeDatetime2 | TypeTimestamp2 => Ok(DateTime)
    case TypeBit => Ok(Bit)
    case TypeEnum => Ok(Enum)
    case TypeSet => Ok(Set)
    case Unlisted(_) => Err("Invalid type")
  }

  /** The integer types map to `UInteger` or `Integer` as the unsigned flag
      says, and nothing else maps to either. */
  lemma IntegerTypes(raw: RawType, flags: Flags)
    ensures MapDataType(raw, flags) == Ok(UInteger) <==> IsIntegerRaw(raw) && flags.unsigned
    ensures MapDataType(raw, flags) == Ok(Integer) <==> IsIntegerRaw(raw) && !flags.unsigned
  {
  }

  /** A character-string column is an `Enum` when the enum flag is set
      (whatever the set flag says), else a `Set` when the set flag is set,
      else a `String`. */
  lemma StringTypes(raw: RawType, flags: Flags)
    requires IsStringRaw(raw)
    ensures MapDataType(raw, flags) == Ok(Enum) <==> flags.enumFlag
    ensures MapDataType(raw, flags) == Ok(Set) <==> !flags.enumFlag && flags.setFlag
    ensures MapDataType(raw, flags) == Ok(String) <==> !flags.enumFlag && !flags.setFlag
  {
  }

  /** `Enum` and `Set` come from the native types, whatever their flags, or
      from a flagged character-string type; nothing else is a `String`. */
  lemma EnumAndSetTypes(raw: RawType, flags: Flags)
    ensures MapDataType(raw, flags) == Ok(Enum) <==> raw == TypeEnum || (IsStringRaw(raw) && flags.enumFlag)
    ensures MapDataType(raw, flags) == Ok(Set)
            <==> raw == TypeSet || (IsStringRaw(raw) && !flags.enumFlag && flags.setFlag)
    ensures MapDataType(raw, flags) == Ok(String) <==> IsStringRaw(raw) && !flags.enumFlag && !flags.setFlag
  {
  }

  /** The date and time types: four raw codes are a `DateTime` (the server's
      `TIMESTAMP` and `DATETIME` look the same to a client), two a `Date`,
      two a `Time`. */
  lemma TemporalTypes(raw: RawType, flags: Flags)
    ensures MapDataType(raw, flags) == Ok(DateTime)
            <==> raw in {TypeDatetime, TypeTimestamp, TypeDatetime2, TypeTimestamp2}
    ensures MapDataType(raw, flags) == Ok(Date) <==> raw in {TypeDate, TypeNewDate}
    ensures MapDataType(raw, flags) == Ok(Time) <==> raw in {TypeTime, TypeTime2}
  {
  }

  /** The flags matter for the integer and character-string types only. */
  lemma FlagsMatterOnlyForIntegersAndStrings(raw: RawType, f1: Flags, f2: Flags)
    requires !IsIntegerRaw(raw) && !IsStringRaw(raw)
    ensures MapDataType(raw, f1) == MapDataType(raw, f2)
  {
  }

  /** A row of the result set; its columns are not part of this model. */
  type Row = seq<string>

  /** `Warning::Level`. */
  datatype Level = Error | Warn | Note

  /** A warning as `fetch_one_warning` hands it out. */
  datatype Warning = Warning(level: Level, code: int, msg: string)

  /** A row of `show warnings`: level, code and message. */
  datatype WarningRow = WarningRow(level: string, code: int, message: string)

  /** The level named in a `show warnings` row: "Error", "Warning", and
      anything else (the server sends "Note") is a note. */
  function LevelOf(name: string): (l: Level)
    ensures l == Error <==> name == "Error"
    ensures l == Warn <==> name == "Warning"
  {
    if name == "Error" then Error
    else if name == "Warning" then Warn
    else Note
  }

  /** The warning built from one `show warnings` row. */
  function ToWarning(row: WarningRow): (w: Warning)
    ensures w.code == row.code && w.msg == row.message
  {
    Warning(LevelOf(row.level), row.code, row.message)
  }

  /** The warnings built from the rows of `show warnings`, in order. */
  function ToWarnings(rows: seq<WarningRow>): (ws: seq<Warning>)
    ensures |ws| == |rows|
    ensures forall i :: 0 <= i < |rows| ==> ws[i] == ToWarning(rows[i])
    decreases |rows|
  {
    if rows == [] then [] else ToWarnings(rows[..|rows| - 1]) + [ToWarning(rows[|rows| - 1])]
  }

  class Result {
    /** `_has_resultset`. */
    var hasResultset: bool
    /** `_result`: the rows of the result set not read yet; `None` when
        there is no result set. */
    var pending: Option<seq<Row>>
    /** `_row`: the row `fetch_one` returned last. */
    var row: Option<Row>
    /** `_fetched_row_count`. */
    var fetchedRowCount: nat
    /** `_warning_count`, as the server reported it. */
    const warningCount: nat
    /** `_fetched_warnings`: whether `show warnings` has been read. */
    var fetchedWarnings: bool
    /** `_warnings`: the warnings not handed out yet, oldest first. */
    var warnings: seq<Warning>

    constructor(warningCount: nat)
      ensures this.warningCount == warningCount
      ensures !hasResultset && pending == None && row == None
      ensures fetchedRowCount == 0 && !fetchedWarnings && warnings == []
    {
      this.warningCount := warningCount;
      hasResultset := false;
      pending := None;
      row := None;
      fetchedRowCount := 0;
      fetchedWarnings := false;
      warnings := [];
    }

    /** `reset(res)`: there is a result set exactly when `res` is given. */
    method Reset(res: Option<seq<Row>>)
      modifies this
      ensures hasResultset <==> res.Some?
      ensures pending == res
      ensures row == old(row) && fetchedRowCount == old(fetchedRowCount)
      ensures fetchedWarnings == old(fetchedWarnings) && warnings == old(warnings)
    {
      hasResultset := false;
      if res.Some? {
        hasResultset := true;
      }
      pending := res;
    }

    /** `fetch_one()`: the next row, counted; at the end of the rows, the
        session's last error (`errorCode`, `errorText`) is thrown when
        there is one and the session is still there. */
    method FetchOne(sessionAlive: bool, errorCode: int, errorText: string) returns (r: Basics.Result<Option<Row>>)
      modifies this
      ensures var more := old(hasResultset) && old(pending).Some? && old(pending).value != [];
              && (more ==> && r == Ok(Some(old(pending).value[0]))
                           && row == r.value
                           && pending == Some(old(pending).value[1..])
                           && fetchedRowCount == old(fetchedRowCount) + 1)
              && (!more ==> && row == None
                            && pending == old(pending)
                            && fetchedRowCount == old(fetchedRowCount)
                            && (r.Err? <==> old(hasResultset) && old(pending).Some? && sessionAlive && errorCode != 0)
                            && (r.Err? ==> r.msg == errorText)
                            && (r.Ok? ==> r.value == None))
      ensures hasResultset == old(hasResultset)
      ensures fetchedWarnings == old(fetchedWarnings) && warnings == old(warnings)
    {
      row := None;
      if hasResultset {
        if pending.Some? {
          var rows := pending.value;
          if rows != [] {
            row := Some(rows[0]);
            pending := Some(rows[1..]);
            fetchedRowCount := fetchedRowCount + 1;
          } else if sessionAlive && errorCode != 0 {
            return Err(errorText);
          }
        }
      }
      return Ok(row);
    }

    /** `next_resultset()`: asks the session (`serverHasMore` is its answer)
        and starts counting rows afresh. */
    method NextResultset(sessionAlive: bool, serverHasMore: bool) returns (more: bool)
      modifies this
      ensures more == (sessionAlive && serverHasMore)
      ensures fetchedRowCount == 0
      ensures hasResultset == old(hasResultset) && pending == old(pending) && row == old(row)
      ensures fetchedWarnings == old(fetchedWarnings) && warnings == old(warnings)
    {
      more := false;
      if sessionAlive {
        more := serverHasMore;
      }
      fetchedRowCount := 0;
    }

    /** `fetch_one_warning()`: on the first call with warnings reported,
        reads `show warnings` (when the session is still there) into the
        queue; then hands out the oldest queued warning. `shown` is the rows
        the server delivers; `failure` is the exception that the query or a
        `fetch_one` throws after them, if any. The exception leaves the
        warnings read so far queued, and since `_fetched_warnings` is
        already set, no later call reads the rest. */
    method FetchOneWarning(sessionAlive: bool, shown: seq<WarningRow>, failure: Option<string>)
      returns (r: Basics.Result<Option<Warning>>)
      modifies this
      ensures var load := warningCount != 0 && !old(fetchedWarnings);
              var queue := old(warnings) + (if load && sessionAlive then ToWarnings(shown) else []);
              && fetchedWarnings == (old(fetchedWarnings) || load)
              && (r.Err? <==> load && sessionAlive && failure.Some?)
              && (r.Err? ==> r.msg == failure.value && warnings == queue)
              && (r.Ok? && queue == [] ==> r.value == None && warnings == [])
              && (r.Ok? && queue != [] ==> r.value == Some(queue[0]) && warnings == queue[1..])
      ensures hasResultset == old(hasResultset) && pending == old(pending)
      ensures row == old(row) && fetchedRowCount == old(fetchedRowCount)
    {
      ghost var load := warningCount != 0 && !fetchedWarnings;
      if warningCount != 0 && !fetchedWarnings {
        fetchedWarnings := true;
        if sessionAlive {
          var i := 0;
          ghost var start := warnings;
          while i < |shown|
            invariant i <= |shown|
            invariant warnings == start + ToWarnings(shown[..i])
            invariant fetchedWarnings && hasResultset == old(hasResultset) && pending == old(pending)
            invariant row == old(row) && fetchedRowCount == old(fetchedRowCount)
          {
            ToWarningsAppend(shown, i);
            warnings := warnings + [ToWarning(shown[i])];
            i := i + 1;
          }
          assert shown[..i] == shown;
          if failure.Some? {
            return Err(failure.value);
          }
        }
      }
      assert warnings == old(warnings) + (if load && sessionAlive then ToWarnings(shown) else []);
      if warnings != [] {
        r := Ok(Some(warnings[0]));
        warnings := warnings[1..];
      } else {
        r := Ok(None);
      }
    }
  }

  /** `ToWarnings` one row further. */
  lemma ToWarningsAppend(rows: seq<WarningRow>, i: nat)
    requires i < |rows|
    ensures ToWarnings(rows[..i + 1]) == ToWarnings(rows[..i]) + [ToWarning(rows[i])]
  {
    assert rows[..i + 1][..i] == rows[..i];
  }

  /** Once `show warnings` has been read, the queue only shrinks: the
      warnings handed out over `n` calls are the first `n` of the queue,
      in order, and then nothing. */
  lemma {:induction false} WarningsDrainInOrder(queue: seq<Warning>, n: nat)
    ensures |DrainN(queue, n).0| == (if n <= |queue| then n else |queue|)
    ensures DrainN(queue, n).0 + DrainN(queue, n).1 == queue
    decreases n
  {
    if n > 0 && queue != [] {
      WarningsDrainInOrder(queue[1..], n - 1);
    }
  }

  /** `n` calls of `fetch_one_warning` on an already loaded queue: the
      warnings handed out and the queue left over. */
  function DrainN(queue: seq<Warning>, n: nat): (seq<Warning>, seq<Warning>)
    decreases n
  {
    if n == 0 || queue == [] then ([], queue)
    else
      var rest := DrainN(queue[1..], n - 1);
      ([queue[0]] + rest.0, rest.1)
  }
}
