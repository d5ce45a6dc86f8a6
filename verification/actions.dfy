/** The buttons of the network and service views: which `adb` command each
    sends for the configured device, which log entry it writes, and the
    fixed settle window before its completion dialog. */
module Actions {
  import opened Js
  import opened Text
  import Logbook
  import Network
  import Service

  datatype Action =
    | EnableData | DisableData              // network view, mobile data row
    | EnableAirplane | DisableAirplane      // network view, airplane row
    | RebootBootloader | RebootRecovery     // service view, power control
    | Restart | Shutdown
    | Uninstall(pkg: string)                // one row of the package table
    | UpdateList                            // only waits and reloads
    | Install                               // upload, then `adb install`

  /** Where an APK is uploaded before it is installed. */
  const StagingPath := "/tmp/upload.apk"

  /** The message `ui.uploadFile` rejects with when the user closes the dialog. */
  const UploadCancelled := "Upload has been cancelled"

  /** Which bridge call carries the command: `fs.exec` returns the separated
      streams, `fs.exec_direct` the raw output text. */
  datatype Call = Adb(argv: seq<string>) | AdbDirect(argv: seq<string>)

  /** The arguments after `-s <device>`; `UpdateList` sends nothing. */
  function Command(a: Action): (cmd: seq<string>)
    ensures cmd == [] <==> a == UpdateList
  {
    match a
    case EnableData => ["shell", "svc", "data", "enable"]
    case DisableData => ["shell", "svc", "data", "disable"]
    case EnableAirplane => ["shell", "cmd", "connectivity", "airplane-mode", "enable"]
    case DisableAirplane => ["shell", "cmd", "connectivity", "airplane-mode", "disable"]
    case RebootBootloader => ["shell", "reboot", "bootloader"]
    case RebootRecovery => ["shell", "reboot", "recovery"]
    case Restart => ["shell", "reboot"]
    case Shutdown => ["shell", "reboot", "-p"]
    case Uninstall(pkg) => ["shell", "pm", "uninstall", "-k", "--user", "0", pkg]
    case UpdateList => []
    case Install => ["install", StagingPath]
  }

  /** The full argument vector, addressed to one device. */
  function Argv(device: string, a: Action): (argv: seq<string>)
    requires a != UpdateList
    ensures |argv| >= 3 && argv[..2] == ["-s", device]
  {
    ["-s", device] + Command(a)
  }

  /** Distinct actions, or distinct devices, never send the same argument vector. */
  lemma ArgvDetermines(d1: string, a1: Action, d2: string, a2: Action)
    requires a1 != UpdateList && a2 != UpdateList
    requires Argv(d1, a1) == Argv(d2, a2)
    ensures d1 == d2 && a1 == a2
  {
    assert Argv(d1, a1)[1] == d1 && Argv(d2, a2)[1] == d2;
    assert Command(a1) == Argv(d1, a1)[2..] && Command(a2) == Argv(d2, a2)[2..];
    CommandDetermines(a1, a2);
  }

  /** `Command` is one-to-one. */
  lemma CommandDetermines(a1: Action, a2: Action)
    requires Command(a1) == Command(a2)
    ensures a1 == a2
  {
    var c := Command(a1);
    if a1.Uninstall? || a2.Uninstall? {
      assert |c| == 7;
      assert a1.Uninstall? && a2.Uninstall? && a1.pkg == c[6] == a2.pkg;
    }
  }

  /** How the bridge answered the action's command. */
  datatype Reply =
    | Replied(output: string)   // `stdout` of `fs.exec`, the text of `fs.exec_direct`
    | NoReply                   // the promise was rejected; its `.then` never runs

  /** How the upload dialog ended (only `Install` uploads). */
  datatype Upload = Uploaded | UploadRejected(message: string)

  /** What the user is left looking at. */
  datatype Shown =
    | Completed        // the success dialog, after the settle window
    | FailureDialog    // an error dialog showing the command's output
    | DangerNotice     // a red notification, no dialog
    | Spinner          // the waiting dialog; nothing follows it
    | Dismissed        // the dialog is closed
    | Unchanged        // no dialog or notice ever appears

  /** The effect of pressing (and confirming) one button. */
  datatype Outcome = Outcome(
    call: Option<Call>,       // the command sent to the device, if any
    message: Option<string>,  // the log message, if the handler writes one
    notice: seq<string>,      // the paragraphs of a danger notification
    settleMs: nat,            // the fixed wait before the completion dialog
    removesStaging: bool,     // whether the staged APK is deleted
    shown: Shown)

  // ------------------------------------------------------------ messages

  const DataOn := "Mobile network has been switched on."
  const DataOff := "Mobile network has been switched off."
  const DataBlocked := "Failed to switch on mobile network because the device is in airplane mode."
  const DataBlockedNotice := "Not avaialble when the airplane mode is enabled."
  const AirplaneOn := "Airplane mode has been switched on."
  const AirplaneOff := "Airplane mode has been switched off."
  const AirplaneOnFailed := "Failed to turn on airplane mode because the device Android version is below 10."
  const AirplaneOffFailed := "Failed to turn off airplane mode because the device Android version is below 10."
  const AirplaneNotice := "Device version cannot execute the command, make sure device is rooted or Android version is 10 or above."
  const Installed := "The package has been successfully installed."
  const InstallFailed := "Failed to install the package"
  const UploadFailed := "Failed to upload the package."

  /** The log message of a power action whose command resolved. */
  function PowerMessage(a: Action): (m: string)
    requires a.RebootBootloader? || a.RebootRecovery? || a.Restart? || a.Shutdown?
    ensures StartsWith(m, "Device ")
    ensures m == "Device entered Fastboot mode." <==> a.RebootBootloader?
    ensures m == "Device entered Recovery mode." <==> a.RebootRecovery?
    ensures m == "Device restarted successfully." <==> a.Restart?
    ensures m == "Device powered off successfully." <==> a.Shutdown?
  {
    match a
    case RebootBootloader => "Device entered Fastboot mode."
    case RebootRecovery => "Device entered Recovery mode."
    case Restart => "Device restarted successfully."
    case Shutdown => "Device powered off successfully."
  }

  /** The fixed wait before a power action's completion dialog. */
  function PowerSettle(a: Action): (ms: nat)
    requires a.RebootBootloader? || a.RebootRecovery? || a.Restart? || a.Shutdown?
    ensures ms == 10000 <==> a.RebootBootloader? || a.RebootRecovery?
    ensures ms == 30000 <==> a.Restart?
    ensures ms == 15000 <==> a.Shutdown?
  {
    match a
    case RebootBootloader => 10000
    case RebootRecovery => 10000
    case Restart => 30000
    case Shutdown => 15000
  }

  /** `${error}` for the `Error` object `ui.uploadFile` rejects with. */
  function ErrorText(message: string): string {
    "Error: " + message
  }

  /** The log file layout each view uses. */
  function StyleOf(a: Action): Logbook.Style {
    if a.EnableData? || a.DisableData? || a.EnableAirplane? || a.DisableAirplane? then Logbook.Bare
    else Logbook.NewlineTerminated
  }

  /** The airplane toggle: any output means the command is unsupported; the
      waiting dialog is opened only once the command resolved without output,
      so a rejected command leaves the page as it was. */
  function Airplane(device: string, a: Action, reply: Reply): (o: Outcome)
    requires a == EnableAirplane || a == DisableAirplane
    ensures o.call == Some(Adb(Argv(device, a)))
    ensures reply.NoReply? ==> o.message.None? && o.shown == Unchanged
    ensures reply.Replied? ==> (o.shown == DangerNotice <==> reply.output != "")
    ensures reply.Replied? && reply.output != "" ==>
              o.message == Some(if a == EnableAirplane then AirplaneOnFailed else AirplaneOffFailed)
              && o.notice == [AirplaneNotice, reply.output]
    ensures reply.Replied? && reply.output == "" ==>
              o.message == Some(if a == EnableAirplane then AirplaneOn else AirplaneOff)
              && o.shown == Completed && o.settleMs == 5000
  {
    var on := a == EnableAirplane;
    var call := Some(Adb(Argv(device, a)));
    match reply
    case NoReply => Outcome(call, None, [], 0, false, Unchanged)
    case Replied(out) =>
      if out != "" then
        Outcome(call, Some(if on then AirplaneOnFailed else AirplaneOffFailed),
                [AirplaneNotice, out], 0, false, DangerNotice)
      else
        Outcome(call, Some(if on then AirplaneOn else AirplaneOff), [], 5000, false, Completed)
  }

  /** The uninstall confirmation: success exactly when the trimmed output is
      `Success`; a failure logs the untrimmed output. */
  function Remove(device: string, pkg: string, reply: Reply): (o: Outcome)
    ensures o.call == Some(Adb(Argv(device, Uninstall(pkg))))
    ensures reply.NoReply? ==> o.message.None? && o.shown == Spinner
    ensures reply.Replied? ==> (o.shown == Completed <==> Trim(reply.output) == "Success")
    ensures reply.Replied? && o.shown != Completed ==>
              o.message == Some("Failed to remove the " + pkg + " package. : " + reply.output)
  {
    var call := Some(Adb(Argv(device, Uninstall(pkg))));
    match reply
    case NoReply => Outcome(call, None, [], 0, false, Spinner)
    case Replied(out) =>
      if Trim(out) == "Success" then
        Outcome(call, Some("Removing " + pkg + " package successfully."), [], 1000, false, Completed)
      else
        Outcome(call, Some("Failed to remove the " + pkg + " package. : " + out), [], 0, false, FailureDialog)
  }

  /** Upload then install: a cancelled upload just closes the dialog; another
      upload error is logged; once `adb install` answers, the staged file is
      removed whatever the answer. */
  function InstallPackage(device: string, upload: Upload, reply: Reply): (o: Outcome)
    ensures o.call.Some? <==> upload == Uploaded
    ensures upload == UploadRejected(UploadCancelled) ==> o.message.None? && o.shown == Dismissed
    ensures o.removesStaging <==> upload == Uploaded && reply.Replied?
    ensures upload == Uploaded && reply.Replied? ==>
              (o.shown == Completed <==> Trim(reply.output) == "Success")
    ensures upload == Uploaded && reply.Replied? && o.shown != Completed ==>
              o.message == Some(InstallFailed + " : " + Trim(reply.output))
  {
    match upload
    case UploadRejected(m) =>
      if m == UploadCancelled then Outcome(None, None, [], 0, false, Dismissed)
      else Outcome(None, Some(UploadFailed + " : " + ErrorText(m)), [], 0, false, FailureDialog)
    case Uploaded =>
      var call := Some(AdbDirect(Argv(device, Install)));
      match reply
      case NoReply => Outcome(call, None, [], 0, false, Spinner)
      case Replied(text) =>
        var result := Trim(text);
        if result == "Success" then Outcome(call, Some(Installed), [], 0, true, Completed)
        else Outcome(call, Some(InstallFailed + " : " + result), [], 0, true, FailureDialog)
  }

  /** One confirmed button press, given the snapshot the view rendered, the
      bridge's reply to the command and (for `Install`) the upload's outcome. */
  function Run(data: Record, device: string, a: Action, reply: Reply, upload: Upload): (o: Outcome)
    ensures o.call.Some? ==> a != UpdateList && o.call.value.argv == Argv(device, a)
    ensures a == UpdateList ==> o.call.None? && o.message.None? && o.settleMs == 10000
    ensures a == EnableData ==>
              (o.call.None? <==> Network.Get(data, "airplane") == Some(Str("true")))
    ensures a == EnableData && Network.Get(data, "airplane") == Some(Str("true")) ==>
              o.message == Some(DataBlocked) && o.notice == [DataBlockedNotice] && o.shown == DangerNotice
    ensures a == EnableData && Network.Get(data, "airplane") != Some(Str("true")) ==>
              o.message == Some(DataOn) && o.shown == Completed
    ensures a == DisableData ==> o.call.Some? && o.message == Some(DataOff) && o.shown == Completed
    ensures a == EnableAirplane || a == DisableAirplane ==> o == Airplane(device, a, reply)
    ensures o.removesStaging ==> a == Install
  {
    match a
    case EnableData =>
      if Network.Get(data, "airplane") == Some(Str("true")) then
        Outcome(None, Some(DataBlocked), [DataBlockedNotice], 0, false, DangerNotice)
      else
        Outcome(Some(Adb(Argv(device, a))), Some(DataOn), [], 5000, false, Completed)
    case DisableData =>
      Outcome(Some(Adb(Argv(device, a))), Some(DataOff), [], 5000, false, Completed)
    case EnableAirplane => Airplane(device, a, reply)
    case DisableAirplane => Airplane(device, a, reply)
    case Uninstall(pkg) => Remove(device, pkg, reply)
    case UpdateList => Outcome(None, None, [], 10000, false, Completed)
    case Install => InstallPackage(device, upload, reply)
    case _ =>
      Outcome(Some(Adb(Argv(device, a))),
              if reply.Replied? then Some(PowerMessage(a)) else None,
              [], PowerSettle(a), false, Completed)
  }

  /** The text written to the log after the action, given what reading it
      returned and the date and time captured when the view rendered. */
  function LogWrite(o: Outcome, a: Action, read: Option<string>, date: string, time: string): (w: Option<string>)
    ensures w.Some? <==> o.message.Some? && read.Some?
  {
    match o.message
    case None => None
    case Some(m) => Logbook.Append(read, StyleOf(a), Logbook.Entry(date, time, m))
  }

  /** Fixed settle windows: 5 s for the radio toggles that succeed, 10 s into
      a special boot mode and for the list refresh, 30 s for a restart, 15 s
      for a shutdown, 1 s after a package removal; installs do not wait. */
  lemma SettleWindows(data: Record, device: string, a: Action, reply: Reply, upload: Upload)
    ensures var o := Run(data, device, a, reply, upload);
            && (o.shown == Completed && (a.EnableData? || a.DisableData? || a.EnableAirplane? || a.DisableAirplane?) ==> o.settleMs == 5000)
            && (a.RebootBootloader? || a.RebootRecovery? || a.UpdateList? ==> o.settleMs == 10000)
            && (a.Restart? ==> o.settleMs == 30000)
            && (a.Shutdown? ==> o.settleMs == 15000)
            && (a.Uninstall? && o.shown == Completed ==> o.settleMs == 1000)
            && (a.Install? ==> o.settleMs == 0)
  {
  }

  /** A power action logs only once its command resolved, and then its own message. */
  lemma PowerLogsOnReply(data: Record, device: string, a: Action, reply: Reply, upload: Upload)
    requires a.RebootBootloader? || a.RebootRecovery? || a.Restart? || a.Shutdown?
    ensures var o := Run(data, device, a, reply, upload);
            (o.message.Some? <==> reply.Replied?) && o.shown == Completed
            && o.call == Some(Adb(Argv(device, a)))
  {
  }

  // ---------------------------------------------------------- availability

  /** The network view's buttons: "Enable" shows only while the state reads
      `'false'`, "Disable" only while it reads `'true'`. */
  function NetworkButtons(data: Record): (bs: set<Action>)
    ensures bs <= {EnableData, DisableData, EnableAirplane, DisableAirplane}
  {
    var dataState, airplane := Network.Get(data, "data"), Network.Get(data, "airplane");
    (if dataState == Some(Str("false")) then {EnableData} else {})
    + (if dataState == Some(Str("true")) then {DisableData} else {})
    + (if airplane == Some(Str("false")) then {EnableAirplane} else {})
    + (if airplane == Some(Str("true")) then {DisableAirplane} else {})
  }

  /** A button offers the opposite of the state the row displays, and a row
      showing '-' offers no button. */
  lemma ButtonsMatchDisplay(data: Record)
    ensures var bs := NetworkButtons(data);
            var d, ap := Network.ToggleOf(Network.Get(data, "data")), Network.ToggleOf(Network.Get(data, "airplane"));
            && (EnableData in bs <==> d == Network.Off) && (DisableData in bs <==> d == Network.On)
            && (EnableAirplane in bs <==> ap == Network.Off) && (DisableAirplane in bs <==> ap == Network.On)
  {
  }

  /** The service view's buttons for the packages it rendered: the four power
      actions, the list refresh, the upload, and one removal per listed row. */
  function ServiceButtons(view: Service.ServiceView, shown: seq<string>): (bs: set<Action>)
    ensures view != Service.DeviceConflict && view != Service.RenderFault ==>
              forall p :: Uninstall(p) in bs <==> p in shown
  {
    match view
    case Controls(_) =>
      {RebootBootloader, RebootRecovery, Restart, Shutdown, UpdateList, Install}
      + set p | p in shown :: Uninstall(p)
    case _ => {}
  }

  /** The device-conflict branch offers nothing, so it neither sends a
      command nor writes the log. */
  lemma ConflictOffersNothing(device: string, df: Exec, pm: Exec, shown: seq<string>)
    requires df.Exec? && df.stderr != "" && Contains(Trim(df.stderr), Service.NotFound)
    ensures ServiceButtons(Service.Classify(Service.LoadService(device, df, pm)), shown) == {}
  {
    Service.ConflictIff(device, df, pm);
  }
}
