/**
 * The boot-time gate diagnose_new_firmware: on the first boot of a new image
 * (its otadata state is PENDING_VERIFY) it runs the self-test; a passing
 * test marks the image valid and cancels the rollback, a failing one marks it
 * invalid and reboots into the previous image. Any other state, or a running
 * partition without an otadata state (the factory image), leaves everything
 * as it is.
 *
 * The ESP-IDF calls are modelled by their documented effect on the otadata:
 * esp_ota_mark_app_valid_cancel_rollback sets the running image's state to
 * VALID; esp_ota_mark_app_invalid_rollback_and_reboot sets it to INVALID and
 * restarts, unless no other image could be booted, in which case it returns
 * an error and changes nothing.
 */
module DiagnosticGate {
  import opened OtaTypes

  /** esp_ota_img_states_t */
  datatype ImgState = New | PendingVerify | Valid | Invalid | Aborted | Undefined

  /** The persistent state the gate reads and changes, as a value. */
  datatype OtaData = OtaData(
    states: map<PartitionId, ImgState>,   // the otadata entry of each OTA partition
    rebooted: bool)                       // esp_restart has run: the bootloader now picks the image

  /** esp_ota_get_state_partition: None when the call does not return ESP_OK. */
  function StateOf(d: OtaData, p: PartitionId): Option<ImgState>
  {
    if p in d.states then Some(d.states[p]) else None
  }

  /** The effect of esp_ota_mark_app_valid_cancel_rollback. */
  function MarkValid(d: OtaData, running: PartitionId): OtaData
  {
    if running in d.states then d.(states := d.states[running := Valid]) else d
  }

  /** The effect of esp_ota_mark_app_invalid_rollback_and_reboot. */
  function MarkInvalidAndReboot(d: OtaData, running: PartitionId, rollbackPossible: bool): OtaData
  {
    if running in d.states && rollbackPossible then OtaData(d.states[running := Invalid], true) else d
  }

  /** What the gate did: the new persistent state, and whether the diagnostic ran. */
  datatype GateResult = GateResult(data: OtaData, ranDiagnostic: bool)

  /** The gate, as diagnose_new_firmware's final `if` cascade. */
  function Gate(d: OtaData, running: PartitionId, rollbackPossible: bool, diagnosticOk: bool): GateResult
  {
    if StateOf(d, running) == Some(PendingVerify) then
      if diagnosticOk then GateResult(MarkValid(d, running), true)
      else GateResult(MarkInvalidAndReboot(d, running, rollbackPossible), true)
    else GateResult(d, false)
  }

  /** A pending image that passes the diagnostic becomes valid; nothing else changes and nothing reboots. */
  lemma PassingDiagnosticKeepsImage(d: OtaData, running: PartitionId, rollbackPossible: bool)
    requires StateOf(d, running) == Some(PendingVerify)
    ensures var g := Gate(d, running, rollbackPossible, true);
      && g.ranDiagnostic
      && StateOf(g.data, running) == Some(Valid)
      && (forall p :: p != running ==> StateOf(g.data, p) == StateOf(d, p))
      && g.data.rebooted == d.rebooted
  {
  }

  /**
   * A pending image that fails the diagnostic is marked invalid and the device
   * reboots, when another image can be booted; otherwise the call fails and
   * nothing changes. No other partition's state changes either way.
   */
  lemma FailingDiagnosticRollsBack(d: OtaData, running: PartitionId, rollbackPossible: bool)
    requires StateOf(d, running) == Some(PendingVerify)
    ensures var g := Gate(d, running, rollbackPossible, false);
      && g.ranDiagnostic
      && (rollbackPossible ==> StateOf(g.data, running) == Some(Invalid) && g.data.rebooted)
      && (!rollbackPossible ==> g.data == d)
      && (forall p :: p != running ==> StateOf(g.data, p) == StateOf(d, p))
  {
  }

  /** Any other state, or a failed lookup, runs no diagnostic and changes nothing. */
  lemma OtherStatesUntouched(d: OtaData, running: PartitionId, rollbackPossible: bool, diagnosticOk: bool)
    requires StateOf(d, running) != Some(PendingVerify)
    ensures Gate(d, running, rollbackPossible, diagnosticOk) == GateResult(d, false)
  {
  }

  /**
   * The diagnostic runs exactly when the running image is pending verification,
   * and a passing or rolled-back gate settles the image: running the gate
   * again does not run the diagnostic and changes nothing.
   */
  lemma GateSettles(d: OtaData, running: PartitionId, rollbackPossible: bool, diagnosticOk: bool, again: bool)
    ensures var g := Gate(d, running, rollbackPossible, diagnosticOk);
      && (g.ranDiagnostic <==> StateOf(d, running) == Some(PendingVerify))
      && (g.ranDiagnostic && (diagnosticOk || rollbackPossible) ==>
            Gate(g.data, running, rollbackPossible, again) == GateResult(g.data, false))
  {
    var g := Gate(d, running, rollbackPossible, diagnosticOk);
    if g.ranDiagnostic && (diagnosticOk || rollbackPossible) {
      assert StateOf(g.data, running) != Some(PendingVerify);
      OtherStatesUntouched(g.data, running, rollbackPossible, again);
    }
  }

  /**
   * The device's otadata and the running partition, which diagnose_new_firmware
   * changes through the ESP-IDF calls.
   */
  class Device {
    const running: PartitionId                // esp_ota_get_running_partition
    const rollbackPossible: bool              // another image in the OTA slots could be booted
    var states: map<PartitionId, ImgState>
    var rebooted: bool

    constructor (running: PartitionId, rollbackPossible: bool, states: map<PartitionId, ImgState>)
      ensures this.running == running && this.rollbackPossible == rollbackPossible
      ensures this.states == states && !this.rebooted
    {
      this.running := running;
      this.rollbackPossible := rollbackPossible;
      this.states := states;
      this.rebooted := false;
    }

    /** The persistent state as a value. */
    function Data(): OtaData
      reads this
    {
      OtaData(states, rebooted)
    }

    /** esp_ota_get_state_partition on the running partition. */
    method GetStatePartition() returns (state: Option<ImgState>)
      ensures state == StateOf(Data(), running)
      ensures state.Some? <==> running in states
    {
      if running in states {
        state := Some(states[running]);
      } else {
        state := None;
      }
    }

    method MarkAppValidCancelRollback()
      modifies this
      ensures Data() == MarkValid(old(Data()), running)
    {
      if running in states {
        states := states[running := Valid];
      }
    }

    method MarkAppInvalidRollbackAndReboot()
      modifies this
      ensures Data() == MarkInvalidAndReboot(old(Data()), running, rollbackPossible)
    {
      if running in states && rollbackPossible {
        states := states[running := Invalid];
        rebooted := true;
      }
    }

    /**
     * diagnose_new_firmware without its digest logging; `diagnosticOk` is
     * what diagnostic() returns.
     */
    method DiagnoseNewFirmware(diagnosticOk: bool) returns (ranDiagnostic: bool)
      modifies this
      ensures Gate(old(Data()), running, rollbackPossible, diagnosticOk) == GateResult(Data(), ranDiagnostic)
    {
      ranDiagnostic := false;
      var state := GetStatePartition();
      if state.Some? {
        if state.value == PendingVerify {
          ranDiagnostic := true;
          if diagnosticOk {
            MarkAppValidCancelRollback();
          } else {
            MarkAppInvalidRollbackAndReboot();
          }
        }
      }
    }
  }

  /** diagnostic() as shipped: the self-test always passes. */
  const SHIPPED_DIAGNOSTIC_OK: bool := true

  /** With the shipped diagnostic, a pending image is always kept, and the device never rolls back. */
  lemma ShippedDiagnosticNeverRollsBack(d: OtaData, running: PartitionId, rollbackPossible: bool)
    ensures var g := Gate(d, running, rollbackPossible, SHIPPED_DIAGNOSTIC_OK);
      && g.data.rebooted == d.rebooted
      && (StateOf(d, running) == Some(PendingVerify) ==> StateOf(g.data, running) == Some(Valid))
  {
  }
}
