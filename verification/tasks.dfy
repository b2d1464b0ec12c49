/**
 The two device tasks: classify the device, then append the row
 `(host, hostname, mode)` to the family's report file. `order` says where
 the header's existence check sits: `OpenThenCheck` is the source as it
 stands, `CheckThenOpen` the corrected writer. A fault ends the task before
 the file is opened.
 */
module Tasks {
  import opened Wrappers
  import opened Replies
  import Nxos
  import Ios
  import opened Report

  /** A device: its inventory name (`str(task.host)`) and management address (`task.host.hostname`). */
  datatype Host = Host(name: string, hostname: string)

  const NxosReport := "vtp_report_all.csv"
  const IosReport := "vtp_report_xyz.csv"

  function Record(host: Host, mode: Value): Row {
    [Str(host.name), Str(host.hostname), mode]
  }

  /** Commands issued, the report store afterwards, and the fault if the task failed. */
  datatype Outcome = Outcome(commands: seq<string>, store: Store, fault: Option<Fault>)

  /**
   The end of either task: a fault raises before the file is opened and
   leaves the store alone; a mode is appended to `file` as one record.
   */
  function Conclude(order: Order, fs: Store, file: string, host: Host, commands: seq<string>, mode: Result<Value, Fault>): (r: Outcome)
    ensures r.commands == commands
    ensures r.fault.Some? <==> mode.Failure?
    ensures mode.Failure? ==> r.fault == Some(mode.error) && r.store == fs
    ensures mode.Success? ==>
      && r.store.Keys == fs.Keys + {file}
      && Rows(r.store, file) == Rows(fs, file) + Header(order, fs, file) + [Record(host, mode.value)]
    ensures forall n :: n != file ==> (n in r.store <==> n in fs) && Rows(r.store, n) == Rows(fs, n)
  {
    match mode
    case Failure(e) => Outcome(commands, fs, Some(e))
    case Success(m) => Outcome(commands, Append(order, fs, file, Record(host, m)), None)
  }

  /** `vtp_info_nx`, given the device's replies to the two NXOS commands. */
  function VtpInfoNx(order: Order, fs: Store, host: Host, status: Value, feature: string): (r: Outcome)
    ensures r.commands == Nxos.Classify(status, feature).commands
    ensures r.fault.Some? <==> Nxos.Classify(status, feature).outcome.Failure?
    ensures r.fault.Some? ==> r.store == fs && r.fault.value == Nxos.Classify(status, feature).outcome.error
    ensures r.fault.None? ==>
      && r.store.Keys == fs.Keys + {NxosReport}
      && Rows(r.store, NxosReport) ==
         Rows(fs, NxosReport) + Header(order, fs, NxosReport) + [Record(host, Str(Nxos.Classify(status, feature).outcome.value))]
    ensures forall n :: n != NxosReport ==> (n in r.store <==> n in fs) && Rows(r.store, n) == Rows(fs, n)
  {
    var run := Nxos.Classify(status, feature);
    var mode := match run.outcome
      case Success(m) => Success(Str(m))
      case Failure(e) => Failure(e);
    Conclude(order, fs, NxosReport, host, run.commands, mode)
  }

  /** `vtp_info_ios`, given the device's structured reply to `show vtp status`. */
  function VtpInfoIos(order: Order, fs: Store, host: Host, reply: Value): (r: Outcome)
    ensures r.commands == [StatusCommand]
    ensures r.fault.Some? <==> Ios.Classify(reply).Failure?
    ensures r.fault.Some? ==> r.store == fs && r.fault.value == Ios.Classify(reply).error
    ensures r.fault.None? ==>
      && r.store.Keys == fs.Keys + {IosReport}
      && Rows(r.store, IosReport) == Rows(fs, IosReport) + Header(order, fs, IosReport) + [Record(host, Ios.Classify(reply).value)]
    ensures forall n :: n != IosReport ==> (n in r.store <==> n in fs) && Rows(r.store, n) == Rows(fs, n)
  {
    Conclude(order, fs, IosReport, host, [StatusCommand], Ios.Classify(reply))
  }

  /**
   Three successful tasks on an empty directory, two to the NXOS report and
   then one to the IOS report: each file holds its records in completion
   order after the header its writer order produces.
   */
  lemma ThreeRecords(order: Order, a: Host, ma: Value, ca: seq<string>,
                       b: Host, mb: Value, cb: seq<string>, c: Host, mc: Value)
    ensures
      var r1 := Conclude(order, map[], NxosReport, a, ca, Success(ma));
      var r2 := Conclude(order, r1.store, NxosReport, b, cb, Success(mb));
      var r3 := Conclude(order, r2.store, IosReport, c, [StatusCommand], Success(mc));
      (&& r3.store.Keys == {NxosReport, IosReport}
       && Rows(r3.store, NxosReport) == NewFileStart(order) + [Record(a, ma), Record(b, mb)]
       && Rows(r3.store, IosReport) == NewFileStart(order) + [Record(c, mc)])
  {
  }

  /**
   The fleet scenario: an NXOS device reporting `VTP Operating Mode : Server`,
   an NXOS device whose status reply does not parse and whose feature line is
   `vtp 1 disabled`, then an IOS device in transparent mode, run in that order
   against an empty directory. Each file holds its data rows in completion
   order, preceded by one header row exactly when the existence check comes
   before the open.
   */
  lemma Scenario(order: Order, a: Host, featureA: string, b: Host, c: Host)
    ensures
      var head := NewFileStart(order);
      var r1 := VtpInfoNx(order, map[], a, Str("VTP Operating Mode : Server"), featureA);
      var r2 := VtpInfoNx(order, r1.store, b, Str("% Invalid command"), "vtp 1 disabled");
      var r3 := VtpInfoIos(order, r2.store, c, Dict(map["vtp" := Dict(map["operating_mode" := Str("transparent")])]));
      (&& r3.store.Keys == {NxosReport, IosReport}
       && Rows(r3.store, NxosReport) == head + [Record(a, Str("server")), Record(b, Str(Nxos.FeatureDisabled))]
       && Rows(r3.store, IosReport) == head + [Record(c, Str("transparent"))])
  {
    var statusA, statusB, featureB := Str("VTP Operating Mode : Server"), Str("% Invalid command"), "vtp 1 disabled";
    var reply := Dict(map["vtp" := Dict(map["operating_mode" := Str("transparent")])]);
    Nxos.ServerExample(featureA);
    Nxos.DisabledExample(statusB.text, featureB);
    Ios.TransparentExample();
    var ca, cb := Nxos.Classify(statusA, featureA).commands, Nxos.Classify(statusB, featureB).commands;
    ThreeRecords(order, a, Str("server"), ca, b, Str(Nxos.FeatureDisabled), cb, c, Str("transparent"));
    var r1 := VtpInfoNx(order, map[], a, statusA, featureA);
    assert r1 == Conclude(order, map[], NxosReport, a, ca, Success(Str("server")));
    var r2 := VtpInfoNx(order, r1.store, b, statusB, featureB);
    assert r2 == Conclude(order, r1.store, NxosReport, b, cb, Success(Str(Nxos.FeatureDisabled)));
  }
}
