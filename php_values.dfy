/**
 * The PHP values that StatsdClient's public operations accept: a lone
 * message string, a metric entity, an ordered array of messages, or any
 * other value. Every message is modelled as a string whose characters stand
 * for the bytes of a PHP string, so strlen is the sequence length.
 */
module PhpValues {

  /** An array key: PHP keys are integers or strings. */
  datatype Key = IntKey(i: int) | StrKey(s: string)

  /** One element of an ordered PHP array. */
  datatype Entry = Entry(key: Key, msg: string)

  /**
   * The argument of send and reduceCount. A metric entity is carried by its
   * wire text; Other stands for every value that is neither a string, an
   * entity nor an array (null, a number, a boolean, another object).
   */
  datatype Data =
    | Text(text: string)
    | Metric(text: string)
    | Array(entries: seq<Entry>)
    | Other

  /** The values of an array, in iteration order. */
  function Values(entries: seq<Entry>): (ms: seq<string>)
    ensures |ms| == |entries|
    ensures forall i :: 0 <= i < |ms| ==> ms[i] == entries[i].msg
  {
    seq(|entries|, i requires 0 <= i < |entries| => entries[i].msg)
  }

  /** The keys of an array, in iteration order. */
  function Keys(entries: seq<Entry>): (ks: seq<Key>)
    ensures |ks| == |entries|
    ensures forall i :: 0 <= i < |ks| ==> ks[i] == entries[i].key
  {
    seq(|entries|, i requires 0 <= i < |entries| => entries[i].key)
  }

  /** A PHP list: the values under the keys 0, 1, 2, ... as array_push builds it. */
  function ListOf(ms: seq<string>): (entries: seq<Entry>)
    ensures Values(entries) == ms
    ensures forall i :: 0 <= i < |entries| ==> entries[i].key == IntKey(i)
  {
    seq(|ms|, i requires 0 <= i < |ms| => Entry(IntKey(i), ms[i]))
  }
}
