/** The field conversion of `insertDataIntoTable` (src/index.ts): how one
    record of the provider's answer and its symbol become the eight
    positional parameters of the INSERT. */
module Rows {
  import opened Wrappers
  import opened Sequences
  import opened Numerals

  /** One record of the provider's answer. Every field is text; `cp` is
      `None` when the record carries no percent string, since calling
      `replace` on it then throws a TypeError. */
  datatype RawQuote = RawQuote(o: string, h: string, l: string, c: string, ch: string, cp: Option<string>, t: string)

  /** A query parameter: a value passed through as text, the result of
      `parseFloat` on a text (its numeric value is not modelled), or the
      result of `parseInt`, `None` standing for NaN. */
  datatype Param = Text(text: string) | FloatOf(source: string) | Integer(value: Option<int>)

  /** `cp.replace('%', '')`: a string pattern replaces its first match only. */
  function StripPercent(cp: string): string
  {
    var i := IndexOf(cp, '%');
    if i > -1 then DeleteAt(cp, i) else cp
  }

  /** Only the first percent sign goes, and nothing else: the result is the
      text without its first '%', and exactly one '%' fewer when there was
      one. */
  lemma StripPercentRemovesFirst(cp: string)
    ensures StripPercent(cp) == RemoveFirst(cp, '%')
    ensures multiset(StripPercent(cp)) == multiset(cp) - multiset{'%'}
  {
    RemoveFirstMultiset(cp, '%');
    if '%' in cp {
      DeleteAtIndexOf(cp, '%');
    } else {
      RemoveFirstAbsent(cp, '%');
    }
  }

  /** A percent sign after text that has none is the one removed, and
      whatever follows it stays: "1.23%" gives "1.23", "50%%" gives "50%". */
  lemma StripPercentAfter(number: string, rest: string)
    requires '%' !in number
    ensures StripPercent(number + "%" + rest) == number + rest
  {
    StripPercentRemovesFirst(number + "%" + rest);
    RemoveFirstAfterPrefix(number, '%', rest);
  }

  /** Text without a percent sign is left as it is, as "abc" is. */
  lemma StripPercentAbsent(cp: string)
    requires '%' !in cp
    ensures StripPercent(cp) == cp
  {
    StripPercentRemovesFirst(cp);
    RemoveFirstAbsent(cp, '%');
  }

  /** The columns of the day's table that an INSERT names. */
  datatype Column = Symbol | Open | High | Low | Close | Change | ChangePercent | Timestamp | LastUpdate

  function ColumnName(c: Column): string
  {
    match c
    case Symbol => "symbol"
    case Open => "open"
    case High => "high"
    case Low => "low"
    case Close => "close"
    case Change => "change"
    case ChangePercent => "change_percent"
    case Timestamp => "timestamp"
    case LastUpdate => "last_update"
  }

  /** The column list of the INSERT statement, as it is spelled there. */
  const InsertStatementColumns: seq<string> :=
    ["symbol", "open", "high", "low", "close", "change", "change_percent", "timestamp", "last_update"]

  /** The columns the eight placeholders `$1` to `$8` fill, in order;
      `last_update` takes `NOW()` instead of a parameter. */
  const InsertColumns: seq<Column> := [Symbol, Open, High, Low, Close, Change, ChangePercent, Timestamp]

  /** What each column receives, looked up by column; `None` for the one
      filled by the server. */
  function ColumnValue(column: Column, symbol: string, q: RawQuote): Option<Param>
    requires q.cp.Some?
  {
    match column
    case Symbol => Some(Text(symbol))
    case Open => Some(Text(q.o))
    case High => Some(Text(q.h))
    case Low => Some(Text(q.l))
    case Close => Some(Text(q.c))
    case Change => Some(Text(q.ch))
    case ChangePercent => Some(FloatOf(StripPercent(q.cp.value)))
    case Timestamp => Some(Integer(ParseInt(q.t)))
    case LastUpdate => None
  }

  /** The parameter list passed to `query`, positionally. */
  function InsertParams(symbol: string, q: RawQuote): (r: seq<Param>)
    requires q.cp.Some?
    ensures |r| == |InsertColumns| == 8
  {
    [Text(symbol), Text(q.o), Text(q.h), Text(q.l), Text(q.c), Text(q.ch),
     FloatOf(StripPercent(q.cp.value)), Integer(ParseInt(q.t))]
  }

  /** The i-th parameter is the value of the i-th listed column, and every
      column but `last_update` is listed. */
  lemma InsertParamsFollowColumns(symbol: string, q: RawQuote)
    requires q.cp.Some?
    ensures forall i :: 0 <= i < |InsertColumns| ==> ColumnValue(InsertColumns[i], symbol, q) == Some(InsertParams(symbol, q)[i])
    ensures forall c: Column :: c != LastUpdate <==> c in InsertColumns
  {
    var r := InsertParams(symbol, q);
    assert InsertColumns == [Symbol, Open, High, Low, Close, Change, ChangePercent, Timestamp];
    assert ColumnValue(ChangePercent, symbol, q) == Some(r[6]);
    assert ColumnValue(Timestamp, symbol, q) == Some(r[7]);
  }

  /** The conversion of `insertDataIntoTable` does not throw: the record
      exists (`forexData[i]` is not past the end of the array) and carries a
      percent string. */
  predicate Convertible(data: Option<RawQuote>)
  {
    data.Some? && data.value.cp.Some?
  }

  /** The placeholders fill the statement's columns in the order the
      statement names them, and `last_update`, named last, is the column left
      to `NOW()`; no two columns share a name. */
  lemma InsertColumnsFollowStatement()
    ensures |InsertStatementColumns| == |InsertColumns| + 1
    ensures forall i :: 0 <= i < |InsertColumns| ==> ColumnName(InsertColumns[i]) == InsertStatementColumns[i]
    ensures ColumnName(LastUpdate) == InsertStatementColumns[|InsertColumns|]
    ensures forall c1: Column, c2: Column :: ColumnName(c1) == ColumnName(c2) ==> c1 == c2
  {
    assert InsertColumns == [Symbol, Open, High, Low, Close, Change, ChangePercent, Timestamp];
  }

  /** `insertDataIntoTable` up to its query: the parameter list, or `None`
      when the conversion throws. */
  function PrepareInsert(symbol: string, data: Option<RawQuote>): (r: Option<seq<Param>>)
    ensures r.Some? <==> Convertible(data)
    ensures r.Some? ==> |r.value| == 8 && r.value[0] == Text(symbol)
  {
    match data
    case None => None
    case Some(q) => if q.cp.None? then None else Some(InsertParams(symbol, q))
  }
}
