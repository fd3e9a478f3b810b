/** `app_eth_sign_msg`: the Ethereum message-signing pipeline. It checks the
    request, has the user confirm the signing address, builds the preimage
    and the display body, has the user confirm the message, hashes the
    preimage and asks the keystore to sign the digest.

    The collaborators it calls (address derivation, the confirmation
    screen, Keccak-256, the secp256k1 keystore) are given as the fields of a
    `Platform` value, and every call into one of them is recorded as an
    `Event`, so that the order of the side effects can be stated. */
module EthSignMsg {
  import opened Bytes
  import opened Format
  import opened EthMessage

  datatype Option<T> = None | Some(value: T)

  /** The network a request names: main net, or any other network id. */
  datatype Coin = ETH | OtherCoin(id: nat)

  datatype Request = Request(coin: Coin, keypath: seq<uint32>, msg: seq<byte>)

  type Digest = d: seq<byte> | |d| == 32 witness seq(32, _ => 0)

  /** The 64 bytes `r || s` the keystore writes for a signature. */
  type CompactSignature = s: seq<byte> | |s| == 64 witness seq(64, _ => 0)

  datatype KeystoreSignature = KeystoreSignature(rs: CompactSignature, recid: int)

  /** What a confirmation screen is given. */
  datatype ConfirmParams = ConfirmParams(title: seq<byte>, body: seq<byte>, scrollable: bool)

  /** The collaborators of the pipeline.
      - `address`: `app_eth_address` for the address output type; `None` when it fails.
      - `confirm`: `workflow_confirm`; whether the user accepts the screen.
      - `keccak256`: the hash, with the original Keccak padding.
      - `sign`: `keystore_secp256k1_sign`; `None` when it fails. */
  datatype Platform = Platform(
    address: (Coin, seq<uint32>) -> Option<seq<byte>>,
    confirm: ConfirmParams -> bool,
    keccak256: seq<byte> -> Digest,
    sign: (seq<uint32>, Digest) -> Option<KeystoreSignature>)

  /** The keystore never reports a recovery id above 0xFF; the code aborts
      the firmware if it does, so such a keystore is outside the model. */
  ghost predicate RecidFitsByte(platform: Platform)
  {
    forall keypath, digest :: platform.sign(keypath, digest).Some? ==>
      platform.sign(keypath, digest).value.recid <= 0xFF
  }

  /** A call into a collaborator. */
  datatype Event =
    | DeriveAddress(coin: Coin, keypath: seq<uint32>)
    | Confirm(params: ConfirmParams)
    | Hash(data: seq<byte>)
    | Sign(keypath: seq<uint32>, digest: Digest)

  /** The four results of `app_eth_sign_msg`; `Ok` carries the 65-byte
      response signature. */
  datatype Outcome = Ok(signature: seq<byte>) | InvalidInput | UserAbort | Unknown

  /** What one call does: its outcome and the collaborator calls it made, in order. */
  datatype Run = Run(outcome: Outcome, trace: seq<Event>)

  const AddressTitle: seq<byte> := Ascii("Your\naddress")

  /** The first screen: the address that will sign. */
  function AddressPrompt(address: seq<byte>): ConfirmParams
  {
    ConfirmParams(AddressTitle, address, true)
  }

  /** The second screen: the payload's title and display body. */
  function ContentPrompt(msg: seq<byte>): ConfirmParams
  {
    ConfirmParams(Title(AllAscii(msg)), Body(msg), true)
  }

  /** `(uint8_t)recid`: the conversion keeps the value modulo 256. */
  function RecidByte(recid: int): (b: byte)
    ensures 0 <= recid <= 0xFF ==> b as int == recid
  {
    (recid % 0x100) as byte
  }

  /** What a call of `app_eth_sign_msg` does, step by step. */
  function Pipeline(req: Request, platform: Platform): (r: Run)
    ensures |r.trace| <= 5
    ensures r.outcome.Ok? || r.outcome == Unknown <==> |r.trace| == 5
    ensures r.outcome.Ok? ==> |r.outcome.signature| == 65
  {
    if |req.msg| > MaxPayload then Run(InvalidInput, [])
    else if req.coin != ETH then Run(InvalidInput, [])
    else
      var derived := [DeriveAddress(req.coin, req.keypath)];
      match platform.address(req.coin, req.keypath)
      case None => Run(InvalidInput, derived)
      case Some(address) =>
        var shownAddress := derived + [Confirm(AddressPrompt(address))];
        if !platform.confirm(AddressPrompt(address)) then Run(UserAbort, shownAddress)
        else
          var shownContent := shownAddress + [Confirm(ContentPrompt(req.msg))];
          if !platform.confirm(ContentPrompt(req.msg)) then Run(UserAbort, shownContent)
          else
            var digest := platform.keccak256(Preimage(req.msg));
            var signed := shownContent + [Hash(Preimage(req.msg))] + [Sign(req.keypath, digest)];
            match platform.sign(req.keypath, digest)
            case None => Run(Unknown, signed)
            case Some(ks) => Run(Ok(ks.rs + [RecidByte(ks.recid)]), signed)
  }

  /** `app_eth_sign_msg` over its fixed-size buffers: the preimage and the
      display body are built in place, the hash reads the used part of the
      preimage buffer, and the response signature is a 65-byte array whose
      last byte is the recovery id. */
  method SignMsg(req: Request, platform: Platform) returns (outcome: Outcome, trace: seq<Event>)
    requires RecidFitsByte(platform)
    ensures Run(outcome, trace) == Pipeline(req, platform)
  {
    trace := [];
    if |req.msg| > MaxPayload {
      return InvalidInput, trace;
    }
    // Only main net: a user could otherwise be led to sign for main net
    // while believing the request is for a test network.
    if req.coin != ETH {
      return InvalidInput, trace;
    }

    trace := [DeriveAddress(req.coin, req.keypath)];
    var address := platform.address(req.coin, req.keypath);
    if address.None? {
      return InvalidInput, trace;
    }
    var addressPrompt := AddressPrompt(address.value);
    trace := trace + [Confirm(addressPrompt)];
    if !platform.confirm(addressPrompt) {
      return UserAbort, trace;
    }

    var msg, payloadOffset := BuildPreimage(req.msg);
    var allAscii := ClassifyAscii(req.msg);
    var body := BuildBody(req.msg, allAscii);
    var title := Title(allAscii);
    var shown := CString(body[..]);
    assert shown == Body(req.msg);
    var contentPrompt := ConfirmParams(title, shown, true);
    trace := trace + [Confirm(contentPrompt)];
    if !platform.confirm(contentPrompt) {
      return UserAbort, trace;
    }

    var hashed := msg[..payloadOffset + |req.msg|];
    assert hashed == msg[..][..payloadOffset + |req.msg|] == Preimage(req.msg);
    trace := trace + [Hash(hashed)];
    var sighash := platform.keccak256(hashed);

    trace := trace + [Sign(req.keypath, sighash)];
    var signed := platform.sign(req.keypath, sighash);
    if signed.None? {
      return Unknown, trace;
    }
    // Abort("unexpected recid") cannot be reached.
    assert signed.value.recid <= 0xFF;
    var signature := PackSignature(signed.value);
    outcome := Ok(signature);
  }

  /** Fills the 65-byte response signature: the keystore's 64 bytes, then
      the recovery id as one byte. */
  method PackSignature(ks: KeystoreSignature) returns (signature: seq<byte>)
    ensures signature == ks.rs + [RecidByte(ks.recid)]
    ensures |signature| == 65 && signature[..64] == ks.rs
    ensures 0 <= ks.recid <= 0xFF ==> signature[64] as int == ks.recid
  {
    var response := new byte[65](_ => 0);
    PutBytes(response, 0, ks.rs);
    response[64] := RecidByte(ks.recid);
    signature := response[..];
    assert signature == ks.rs + [RecidByte(ks.recid)];
  }

  // ---------------------------------------------------------------------------
  // Properties of the pipeline

  predicate HasSign(trace: seq<Event>)
  {
    exists i :: 0 <= i < |trace| && trace[i].Sign?
  }

  predicate HasHash(trace: seq<Event>)
  {
    exists i :: 0 <= i < |trace| && trace[i].Hash?
  }

  predicate HasConfirm(trace: seq<Event>)
  {
    exists i :: 0 <= i < |trace| && trace[i].Confirm?
  }

  /** An oversized payload is refused before any collaborator is called. */
  lemma OversizedPayloadRefused(req: Request, platform: Platform)
    requires |req.msg| > MaxPayload
    ensures Pipeline(req, platform) == Run(InvalidInput, [])
  {
  }

  /** A request for any network but main net is refused before any
      collaborator is called. */
  lemma OtherNetworkRefused(req: Request, platform: Platform)
    requires req.coin != ETH
    ensures Pipeline(req, platform).outcome == InvalidInput
    ensures Pipeline(req, platform).trace == []
  {
  }

  /** When the address cannot be derived the request is refused and nothing
      is shown, hashed or signed. */
  lemma DerivationFailureRefused(req: Request, platform: Platform)
    requires |req.msg| <= MaxPayload && req.coin == ETH
    requires platform.address(req.coin, req.keypath).None?
    ensures Pipeline(req, platform) == Run(InvalidInput, [DeriveAddress(req.coin, req.keypath)])
    ensures !HasConfirm(Pipeline(req, platform).trace)
  {
  }

  /** Rejecting the address ends the call: the message is never shown, hashed or signed. */
  lemma AddressRejectionAborts(req: Request, platform: Platform, address: seq<byte>)
    requires |req.msg| <= MaxPayload && req.coin == ETH
    requires platform.address(req.coin, req.keypath) == Some(address)
    requires !platform.confirm(AddressPrompt(address))
    ensures Pipeline(req, platform).outcome == UserAbort
    ensures Pipeline(req, platform).trace ==
      [DeriveAddress(req.coin, req.keypath), Confirm(AddressPrompt(address))]
    ensures !HasHash(Pipeline(req, platform).trace) && !HasSign(Pipeline(req, platform).trace)
  {
  }

  /** Rejecting the message ends the call: it is never hashed or signed. */
  lemma ContentRejectionAborts(req: Request, platform: Platform, address: seq<byte>)
    requires |req.msg| <= MaxPayload && req.coin == ETH
    requires platform.address(req.coin, req.keypath) == Some(address)
    requires platform.confirm(AddressPrompt(address))
    requires !platform.confirm(ContentPrompt(req.msg))
    ensures Pipeline(req, platform).outcome == UserAbort
    ensures Pipeline(req, platform).trace ==
      [DeriveAddress(req.coin, req.keypath), Confirm(AddressPrompt(address)), Confirm(ContentPrompt(req.msg))]
    ensures !HasHash(Pipeline(req, platform).trace) && !HasSign(Pipeline(req, platform).trace)
  {
  }

  /** No silent signing: whenever the keystore is asked to sign, the user has
      accepted the derived address and then the display of this very
      payload, and the digest is the hash of exactly this payload's
      preimage; the keystore call is the last thing the pipeline does. */
  lemma SigningFollowsBothApprovals(req: Request, platform: Platform, i: nat)
    requires i < |Pipeline(req, platform).trace| && Pipeline(req, platform).trace[i].Sign?
    ensures var trace := Pipeline(req, platform).trace;
      && i == 4 && |trace| == 5
      && req.coin == ETH && |req.msg| <= MaxPayload
      && platform.address(req.coin, req.keypath).Some?
      && trace[0] == DeriveAddress(req.coin, req.keypath)
      && trace[1] == Confirm(AddressPrompt(platform.address(req.coin, req.keypath).value))
      && platform.confirm(trace[1].params)
      && trace[2] == Confirm(ContentPrompt(req.msg))
      && platform.confirm(trace[2].params)
      && trace[3] == Hash(Preimage(req.msg))
      && trace[4] == Sign(req.keypath, platform.keccak256(Preimage(req.msg)))
  {
  }

  /** The hash is taken over the used part of the preimage buffer only: the
      header, the length digits and the payload, at most its capacity. */
  lemma HashCoversPreimageOnly(req: Request, platform: Platform, i: nat)
    requires i < |Pipeline(req, platform).trace| && Pipeline(req, platform).trace[i].Hash?
    ensures Pipeline(req, platform).trace[i].data == Preimage(req.msg)
    ensures |Pipeline(req, platform).trace[i].data| == PayloadOffset(req.msg) + |req.msg| <= PreimageCapacity
  {
    assert |req.msg| <= MaxPayload;
    PreimageFits(req.msg);
  }

  /** A signature is returned only after both approvals and a successful
      keystore call; it is the keystore's 64 bytes followed by the recovery id. */
  lemma SignatureLayout(req: Request, platform: Platform)
    requires RecidFitsByte(platform)
    requires Pipeline(req, platform).outcome.Ok?
    ensures var trace := Pipeline(req, platform).trace;
      && |trace| == 5 && trace[4].Sign?
      && platform.sign(trace[4].keypath, trace[4].digest).Some?
      && var ks := platform.sign(trace[4].keypath, trace[4].digest).value;
      && var sig := Pipeline(req, platform).outcome.signature;
      && |sig| == 65 && sig[..64] == ks.rs && sig[64] == RecidByte(ks.recid)
      && (0 <= ks.recid ==> sig[64] as int == ks.recid)
  {
  }

  /** A keystore failure after both approvals is reported as `Unknown`, and
      `Unknown` means exactly that. */
  lemma UnknownMeansKeystoreFailure(req: Request, platform: Platform)
    ensures Pipeline(req, platform).outcome == Unknown <==>
      && |req.msg| <= MaxPayload && req.coin == ETH
      && platform.address(req.coin, req.keypath).Some?
      && platform.confirm(AddressPrompt(platform.address(req.coin, req.keypath).value))
      && platform.confirm(ContentPrompt(req.msg))
      && platform.sign(req.keypath, platform.keccak256(Preimage(req.msg))).None?
  {
  }
}
