/**
 * The sample-rate annotator of StatsdClient (appendSampleRate). With a rate
 * of 1 or more the array is returned as it is; below 1 every message gets
 * the suffix "|@<rate>", under the same key and in the same order, which
 * tells StatsD that the metric was sampled (etsy/statsd README).
 *
 * The suffix is built at StatsdClient.php line 130 by a sprintf whose
 * format is '%s|@%s' concatenated with the message and the rate, and which
 * gets no argument: PHP's sprintf cannot fill the two %s directives, so it
 * fails for every message. AnnotateAsWritten models that call and
 * AnnotateAsWrittenFails shows the failure on a sampled counter; Annotate is the evidently
 * intended message + "|@" + rate, which the rest of the model uses.
 */
module Sampling {
  import opened Wrappers
  import opened PhpValues

  /**
   * A sample rate: its numeric value and the text PHP's string conversion
   * gives for it. The float-to-string conversion itself is not modelled,
   * so the text travels with the value.
   */
  datatype SampleRate = SampleRate(value: real, text: string)

  /** The default argument of send and appendSampleRate: 1. */
  const Unsampled: SampleRate := SampleRate(1.0, "1")

  /** The test `$sampleRate < 1`. */
  predicate BelowOne(rate: SampleRate)
  {
    rate.value < 1.0
  }

  /** The sampling suffix: "|@" followed by the rate. */
  function Suffix(rate: SampleRate): string
  {
    "|@" + rate.text
  }

  /** The intended annotation of one message: message + "|@" + rate. */
  function Annotate(msg: string, rate: SampleRate): (r: string)
    ensures |r| == |msg| + |Suffix(rate)|
    ensures r[..|msg|] == msg && r[|msg|..] == Suffix(rate)
  {
    msg + Suffix(rate)
  }

  /** Strips the sampling suffix of `rate` from `s`, if `s` carries it. */
  function Unannotate(s: string, rate: SampleRate): (r: Option<string>)
    ensures r.Some? <==> |s| >= |Suffix(rate)| && s[|s| - |Suffix(rate)|..] == Suffix(rate)
    ensures r.Some? ==> r.value + Suffix(rate) == s
  {
    var n := |Suffix(rate)|;
    if |s| >= n && s[|s| - n..] == Suffix(rate) then Some(s[..|s| - n]) else None
  }

  /** The annotation is undone by stripping the suffix: no message is lost or altered. */
  lemma UnannotateAnnotate(msg: string, rate: SampleRate)
    ensures Unannotate(Annotate(msg, rate), rate) == Some(msg)
  {
    var s := Annotate(msg, rate);
    assert s[|s| - |Suffix(rate)|..] == Suffix(rate);
    assert s[..|s| - |Suffix(rate)|] == msg;
  }

  /**
   * appendSampleRate, as intended: below a rate of one every message is
   * annotated; keys, order and the number of entries are kept.
   */
  function AppendSampleRate(data: seq<Entry>, rate: SampleRate): (r: seq<Entry>)
    ensures !BelowOne(rate) ==> r == data
    ensures Keys(r) == Keys(data)
    ensures BelowOne(rate) ==> forall i :: 0 <= i < |r| ==> r[i].msg == Annotate(data[i].msg, rate)
  {
    if BelowOne(rate) then
      seq(|data|, i requires 0 <= i < |data| => Entry(data[i].key, Annotate(data[i].msg, rate)))
    else
      data
  }

  /** Below a rate of one, every original message can be read back from the annotated array. */
  lemma SampledMessagesRecoverable(data: seq<Entry>, rate: SampleRate)
    requires BelowOne(rate)
    ensures forall i :: 0 <= i < |data| ==>
              Unannotate(AppendSampleRate(data, rate)[i].msg, rate) == Some(data[i].msg)
  {
    forall i | 0 <= i < |data|
      ensures Unannotate(AppendSampleRate(data, rate)[i].msg, rate) == Some(data[i].msg)
    {
      UnannotateAnnotate(data[i].msg, rate);
    }
  }

  // ---------------------------------------------------------------------
  // The call as written

  /**
   * PHP's sprintf given a format and no argument: "%%" yields "%", any other
   * directive (or a lone trailing "%") has no argument to consume, and the
   * call fails (false in PHP 7, an ArgumentCountError or ValueError in PHP 8).
   */
  function FormatNoArgs(fmt: string): (r: Option<string>)
    decreases |fmt|
  {
    if fmt == [] then Some([])
    else if fmt[0] != '%' then
      match FormatNoArgs(fmt[1..])
      case Some(rest) => Some([fmt[0]] + rest)
      case None => None
    else if |fmt| >= 2 && fmt[1] == '%' then
      match FormatNoArgs(fmt[2..])
      case Some(rest) => Some(['%'] + rest)
      case None => None
    else None
  }

  /** A format without any "%" is printed as it is. */
  lemma {:induction false} FormatNoArgsPlain(fmt: string)
    requires '%' !in fmt
    ensures FormatNoArgs(fmt) == Some(fmt)
    decreases |fmt|
  {
    if fmt != [] {
      FormatNoArgsPlain(fmt[1..]);
      assert [fmt[0]] + fmt[1..] == fmt;
    }
  }

  /**
   * sprintf('%s|@%s' . $message . $sampleRate), exactly as StatsdClient.php
   * line 130 calls it: the format starts with a %s that no argument fills,
   * so the call fails for every message and rate.
   */
  function AnnotateAsWritten(msg: string, rate: SampleRate): (r: Option<string>)
    ensures r.None?
  {
    FormatNoArgs("%s|@%s" + msg + rate.text)
  }

  /** A counter sampled at 0.5: the call as written fails where Annotate gives the sampled counter. */
  lemma AnnotateAsWrittenFails()
    ensures AnnotateAsWritten("foo:1|c", SampleRate(0.5, "0.5")) == None
    ensures Annotate("foo:1|c", SampleRate(0.5, "0.5")) == "foo:1|c|@0.5"
  {
  }
}
