/**
 * SystemdJournal.swift: the swift-log handler that sends each entry to the
 * journal. `prepareMetadata` merges the handler's metadata, the provider's
 * and the call's, then writes the seven fields the journal reserves; `log`
 * flattens the result into "KEY=value" strings for `sd_journal_sendv`.
 *
 * Metadata values are modelled by their textual description, which is what
 * the "KEY=value" strings carry.
 */
module Journal {
  import opened Wrappers
  import LogLevel

  type Metadata = map<string, string>

  const MESSAGE := "MESSAGE"
  const PRIORITY := "PRIORITY"
  const CODE_FILE := "CODE_FILE"
  const CODE_FUNC := "CODE_FUNC"
  const CODE_LINE := "CODE_LINE"
  const UNIT := "UNIT"
  const SYSLOG_IDENTIFIER := "SYSLOG_IDENTIFIER"

  const ReservedKeys: set<string> := {MESSAGE, PRIORITY, CODE_FILE, CODE_FUNC, CODE_LINE, UNIT, SYSLOG_IDENTIFIER}

  /** The decimal digit for d. */
  function Digit(d: nat): (c: char)
    requires d < 10
    ensures '0' <= c <= '9'
  {
    ['0', '1', '2', '3', '4', '5', '6', '7', '8', '9'][d]
  }

  /** String interpolation of a non-negative integer: its decimal digits, most significant first. */
  function Decimal(n: nat): (s: string)
    ensures |s| >= 1 && forall i :: 0 <= i < |s| ==> '0' <= s[i] <= '9'
  {
    if n < 10 then [Digit(n)] else Decimal(n / 10) + [Digit(n % 10)]
  }

  /** Reading decimal digits back, most significant first: an independent inverse of Decimal. */
  function ParseDecimal(s: string): nat
    requires forall i :: 0 <= i < |s| ==> '0' <= s[i] <= '9'
  {
    if s == [] then 0
    else ParseDecimal(s[..|s| - 1]) * 10 + ((s[|s| - 1] as int) - ('0' as int))
  }

  lemma {:induction false} DecimalRoundTrip(n: nat)
    ensures ParseDecimal(Decimal(n)) == n
  {
    if n >= 10 {
      DecimalRoundTrip(n / 10);
      var s := Decimal(n);
      assert s[..|s| - 1] == Decimal(n / 10);
    }
  }

  /** The seven reserved keys are pairwise distinct. */
  lemma ReservedKeysDistinct()
    ensures MESSAGE != PRIORITY && MESSAGE != CODE_FILE && MESSAGE != CODE_FUNC && MESSAGE != CODE_LINE
    ensures MESSAGE != UNIT && MESSAGE != SYSLOG_IDENTIFIER
    ensures PRIORITY != CODE_FILE && PRIORITY != CODE_FUNC && PRIORITY != CODE_LINE && PRIORITY != UNIT
    ensures PRIORITY != SYSLOG_IDENTIFIER
    ensures CODE_FILE != CODE_FUNC && CODE_FILE != CODE_LINE && CODE_FUNC != CODE_LINE
    ensures CODE_FILE != UNIT && CODE_FUNC != UNIT && CODE_LINE != UNIT
    ensures CODE_FILE != SYSLOG_IDENTIFIER && CODE_FUNC != SYSLOG_IDENTIFIER && CODE_LINE != SYSLOG_IDENTIFIER
    ensures UNIT != SYSLOG_IDENTIFIER
  {
    assert CODE_FILE[6] != CODE_FUNC[6] && CODE_FILE[5] != CODE_LINE[5] && CODE_FUNC[5] != CODE_LINE[5];
  }

  /** The fields `prepareMetadata` writes last, whatever the merged metadata held. */
  function ReservedFields(loggerLabel: string, level: LogLevel.Level, message: string, source: string,
                          file: string, function_: string, line: nat): (m: Metadata)
    ensures m.Keys == ReservedKeys
  {
    map[MESSAGE := message,
        PRIORITY := Decimal(LogLevel.SyslogPriority(level)),
        CODE_FILE := file,
        CODE_FUNC := function_,
        CODE_LINE := Decimal(line),
        UNIT := source,
        SYSLOG_IDENTIFIER := loggerLabel]
  }

  /**
   * The first half of `prepareMetadata`: the provider's values override
   * the handler's, and the call's override both, key by key; an empty map
   * is not merged at all.
   */
  method MergeMetadata(base: Metadata, provided: Option<Metadata>, explicit: Option<Metadata>)
    returns (metadata: Metadata)
    ensures metadata.Keys == base.Keys + provided.GetOr(map[]).Keys + explicit.GetOr(map[]).Keys
    ensures forall k :: k in metadata ==>
              metadata[k] == if explicit.Some? && k in explicit.value then explicit.value[k]
                             else if provided.Some? && k in provided.value then provided.value[k]
                             else base[k]
  {
    metadata := base;
    var p := provided.GetOr(map[]);
    if p != map[] {
      metadata := metadata + p;
    }
    if explicit.Some? && explicit.value != map[] {
      metadata := metadata + explicit.value;
    }
  }

  /**
   * `prepareMetadata`: start from the handler's metadata, let the
   * provider's values and then the call's override it key by key, then set
   * the reserved fields. `provided` is what the provider returned (None
   * when there is no provider).
   */
  method PrepareMetadata(loggerLabel: string, level: LogLevel.Level, message: string, base: Metadata,
                         provided: Option<Metadata>, explicit: Option<Metadata>, source: string,
                         file: string, function_: string, line: nat)
    returns (metadata: Metadata)
    ensures metadata.Keys == base.Keys + provided.GetOr(map[]).Keys + explicit.GetOr(map[]).Keys + ReservedKeys
    ensures forall k :: k in ReservedKeys ==>
              metadata[k] == ReservedFields(loggerLabel, level, message, source, file, function_, line)[k]
    ensures forall k :: k in metadata && k !in ReservedKeys ==>
              metadata[k] == if explicit.Some? && k in explicit.value then explicit.value[k]
                             else if provided.Some? && k in provided.value then provided.value[k]
                             else base[k]
  {
    metadata := MergeMetadata(base, provided, explicit);
    ReservedKeysDistinct();
    metadata := metadata[MESSAGE := message];
    metadata := metadata[PRIORITY := Decimal(LogLevel.SyslogPriority(level))];
    metadata := metadata[CODE_FILE := file];
    metadata := metadata[CODE_FUNC := function_];
    metadata := metadata[CODE_LINE := Decimal(line)];
    metadata := metadata[UNIT := source];
    metadata := metadata[SYSLOG_IDENTIFIER := loggerLabel];
  }

  /** The line the journal gets for one metadata entry. */
  function Field(key: string, value: string): string
  {
    key + "=" + value
  }

  /** `SystemdJournalLogHandler`: its level, its own metadata and its loggerLabel. */
  class JournalLogHandler {
    var logLevel: LogLevel.Level
    var metadata: Metadata
    const loggerLabel: string

    /** `init(label:metadataProvider:)`: level `info`, no metadata. */
    constructor (loggerLabel: string)
      ensures this.loggerLabel == loggerLabel && logLevel == LogLevel.Info && metadata == map[]
    {
      this.loggerLabel := loggerLabel;
      logLevel := LogLevel.Info;
      metadata := map[];
    }

    /** The metadata subscript's getter. */
    function MetadataValue(key: string): (v: Option<string>)
      reads this
      ensures v.Some? <==> key in metadata
      ensures v.Some? ==> v.value == metadata[key]
    {
      if key in metadata then Some(metadata[key]) else None
    }

    /** The metadata subscript's setter: nil removes the key, anything else sets it. */
    method SetMetadataValue(key: string, v: Option<string>)
      modifies this
      ensures metadata == if v.Some? then old(metadata)[key := v.value] else old(metadata) - {key}
      ensures logLevel == old(logLevel)
    {
      if v.Some? {
        metadata := metadata[key := v.value];
      } else {
        metadata := metadata - {key};
      }
    }

    /**
     * `log` up to `sd_journal_sendv`: the merged metadata, flattened into
     * one "KEY=value" line per entry, in the dictionary's (unspecified)
     * iteration order.
     */
    method Log(level: LogLevel.Level, message: string, provided: Option<Metadata>, explicit: Option<Metadata>,
               source: string, file: string, function_: string, line: nat)
      returns (effective: Metadata, lines: seq<string>)
      ensures effective.Keys == metadata.Keys + provided.GetOr(map[]).Keys + explicit.GetOr(map[]).Keys + ReservedKeys
      ensures forall k :: k in ReservedKeys ==>
                effective[k] == ReservedFields(loggerLabel, level, message, source, file, function_, line)[k]
      ensures |lines| == |effective.Keys|
      ensures forall k :: k in effective ==> Field(k, effective[k]) in lines
    {
      effective := PrepareMetadata(loggerLabel, level, message, metadata, provided, explicit, source, file, function_, line);
      lines := [];
      var todo := effective.Keys;
      while todo != {}
        invariant todo <= effective.Keys
        invariant |lines| + |todo| == |effective.Keys|
        invariant forall k :: k in effective.Keys - todo ==> Field(k, effective[k]) in lines
        decreases |todo|
      {
        var k :| k in todo;
        lines := lines + [Field(k, effective[k])];
        todo := todo - {k};
      }
    }
  }

  /** PRIORITY reads back as the level's syslog severity and CODE_LINE as the line number. */
  lemma NumericFieldsReadBack(loggerLabel: string, level: LogLevel.Level, message: string, line: nat)
    ensures ReservedFields(loggerLabel, level, message, "", "", "", line)[PRIORITY]
            == Decimal(LogLevel.SyslogPriority(level))
    ensures ParseDecimal(ReservedFields(loggerLabel, level, message, "", "", "", line)[PRIORITY])
            == LogLevel.SyslogPriority(level)
    ensures ParseDecimal(ReservedFields(loggerLabel, level, message, "", "", "", line)[CODE_LINE]) == line
  {
    DecimalRoundTrip(LogLevel.SyslogPriority(level));
    DecimalRoundTrip(line);
  }
}
