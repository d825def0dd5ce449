/** The transit codec of the customer store: `DbClient.encrypt` and
    `DbClient.decrypt`. The Vault server is not modelled: its transit
    encrypt and decrypt endpoints are an oracle (`TransitService`) of which the
    model assumes only what `WellBehaved` says. */
module Transit {
  import opened Values
  import Base64
  import Utf8

  /** The literal that starts every ciphertext the key service returns. */
  const CiphertextTag: string := "vault:v"

  /** A value that `decrypt` sends to the key service rather than passing it through. */
  predicate IsTagged(s: string) {
    CiphertextTag <= s
  }

  /** An `hvac.Client` bound to a server address and an access token. */
  datatype VaultClient = VaultClient(url: string, token: string)

  /** The key service's transit endpoints, given the client, the mount point,
      the key name and the payload; None where the call raises. */
  datatype TransitService = TransitService(
    encryptData: (VaultClient, Option<string>, Option<string>, string) -> Option<string>,
    decryptData: (VaultClient, Option<string>, Option<string>, string) -> Option<string>)

  /** What the model assumes of the key service: every ciphertext it returns
      carries the tag, and decrypting it under the same client, mount point and
      key gives back the payload that was encrypted. */
  ghost predicate WellBehaved(service: TransitService) {
    forall client, mount, key, payload ::
      service.encryptData(client, mount, key, payload).Some? ==>
        var c := service.encryptData(client, mount, key, payload).value;
        IsTagged(c) && service.decryptData(client, mount, key, c) == Some(payload)
  }

  /** The fields of the store the codec reads: `vault_client`, `mount_point`
      and `key_name`, with the key service they reach. */
  datatype Codec = Codec(
    client: Option<VaultClient>,
    mountPoint: Option<string>,
    keyName: Option<string>,
    service: TransitService)

  /** `encrypt`: the UTF-8 bytes of `value`, Base64-encoded, sent to the key
      service; None when there is no client or the service call fails (the
      source catches every exception and returns None). */
  function Encrypt(codec: Codec, value: string): (r: Option<string>)
    ensures codec.client.None? ==> r.None?
    ensures r.Some? && WellBehaved(codec.service) ==> IsTagged(r.value)
  {
    match codec.client
    case None => None
    case Some(client) =>
      codec.service.encryptData(client, codec.mountPoint, codec.keyName,
                                Base64.Encode(Utf8.Encode(value)))
  }

  /** `decrypt`: a `str` without the tag is returned unchanged; a tagged one
      goes to the key service and its answer is Base64-decoded and then UTF-8
      decoded, any failure on the way giving None (`Null`). A value that is
      not a `str` has no `startswith`, which raises before the source's
      try-block and so reaches the caller. */
  function Decrypt(codec: Codec, v: Value): (r: Outcome<Value>)
    ensures r.Raised? <==> !v.Text?
    ensures r.Raised? ==> r.error == AttributeError
    ensures v.Text? && !IsTagged(v.s) ==> r == Returned(v)
    ensures r.Returned? ==> r.value.Text? || r.value.Null?
  {
    match v
    case Text(s) =>
      if !IsTagged(s) then Returned(v)
      else Returned(
        match codec.client
        case None => Null
        case Some(client) =>
          match codec.service.decryptData(client, codec.mountPoint, codec.keyName, s)
          case None => Null
          case Some(payload) =>
            match Base64.Decode(payload)
            case None => Null
            case Some(bytes) =>
              match Utf8.Decode(bytes)
              case None => Null
              case Some(plain) => Text(plain))
    case _ => Raised(AttributeError)
  }

  /** With a well-behaved key service, decrypting what `encrypt` returned
      gives back the original text. */
  lemma RoundTrip(codec: Codec, value: string)
    requires WellBehaved(codec.service)
    requires Encrypt(codec, value).Some?
    ensures IsTagged(Encrypt(codec, value).value)
    ensures Decrypt(codec, Text(Encrypt(codec, value).value)) == Returned(Text(value))
  {
    var client := codec.client.value;
    var payload := Base64.Encode(Utf8.Encode(value));
    var c := codec.service.encryptData(client, codec.mountPoint, codec.keyName, payload).value;
    assert codec.service.decryptData(client, codec.mountPoint, codec.keyName, c) == Some(payload);
    Base64.RoundTrip(Utf8.Encode(value));
    Utf8.RoundTrip(value);
  }
}
