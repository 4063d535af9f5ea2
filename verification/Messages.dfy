/** The values that two phones exchange. */
module Messages {
  import opened Basics

  /** One absolute key and touch state, tagged with the frame it belongs to. */
  datatype DSInputFrame = DSInputFrame(
    frame: nat, keyMask: nat, touchX: nat, touchY: nat, touchActive: bool)

  /** Hashes of the whole emulator state and of both framebuffers after a frame. */
  datatype EmulatorDigest = EmulatorDigest(frame: nat, state: nat, top: nat, bottom: nat)

  datatype FrameAcknowledgement = FrameAcknowledgement(
    frame: nat, digest: Option<EmulatorDigest>, processingNanoseconds: nat)

  const PROTOCOL_VERSION: nat := 3

  /** Texts are kept as the bytes of their UTF-8 form. */
  datatype TwoPhoneMessage =
    | Hello(version: nat, romSHA256: seq<byte>)
    | Snapshot(state: seq<byte>, stateHash: nat)
    | Ready
    | Start
    | Input(input: DSInputFrame)
    | Acknowledgement(ack: FrameAcknowledgement)
    | Finish(frame: nat, success: bool, detail: seq<byte>)
    | FinishAcknowledgement
    | Failure(detail: seq<byte>)
}
