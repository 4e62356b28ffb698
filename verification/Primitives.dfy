// The messages that are hashed or signed, and the library calls the model leaves open: each is a
// function value, so every theorem holds for all of them.
module Primitives {
  import opened Octets

  type Digest48 = b: Bytes | |b| == 48 witness seq(48, _ => 0)
  type Digest64 = b: Bytes | |b| == 64 witness seq(64, _ => 0)

  /** What a report says of the platform: which instance signed it and, if known, which silicon. */
  datatype Anchor = Anchor(instance: Bytes, place: Option<Bytes>)

  /** verify_report: refused, or genuine with an anchor when the platform has a usable one. */
  datatype Appraisal = Refused | Genuine(anchor: Option<Anchor>)

  datatype Kind = EnrollEntry | PresentEntry | TransferEntry | RevokeEntry

  /** The reasons the mandate gives; each stands for one message string of the source. */
  datatype Reason =
      // enroll
    | Enrolled | NonceUnknown | NonceExpired | NoAuthorisation | AuthorisationUnsupported
    | AuthorisationOtherIdentity | AuthorisationOtherChallenge | AuthorisationExpired
    | AuthorisationUnsigned | AlreadyEnrolled | CsrUnusable | CsrOtherKey | EnrolmentEvidenceInvalid
    | EnrolmentNoInstance | EnrolmentNoPlace
      // present
    | Accepted | IdentityRevoked | BundleMismatch | BundleAbsent | BundleHeadUnknown | HeadUnknown
    | EvidenceInvalid | NoInstance | NotEnrolled | Impostor | NoPlace | PlaceChanged | SecondInstance
    | FirstCounterNotZero | CounterNotNext | LinkMismatch
      // transfer
    | Transferred | NothingToTransfer | NotTransferable | GrantUnsupported | GrantOtherIdentity
    | GrantUnsigned | GrantOutsideWindow | GrantReplayed | GrantNoOrigin | GrantOtherOrigin
    | GrantUnreadable | GrantNoInstance | GrantUnwitnessed
      // revoke
    | Operator(text: string)

  /** One decision, as it is logged. */
  datatype Entry = Entry(seqNo: nat, at: int, kind: Kind, id: Digest, instance: Option<Bytes>,
                         accepted: bool, reason: Reason)

  /** A signed tree head. */
  datatype Sth = Sth(size: int, root: Bytes, at: int, sig: Bytes)

  /** One mandate's claim in a bundle: its short name, and a size and root of its log. */
  datatype BundleEntry = BundleEntry(id: Bytes, size: int, root: Bytes)

  /** A permission to move an identity; `to` is None when it is not a readable hex string. */
  datatype Grant = Grant(version: int, tik: Bytes, to: Option<Bytes>, from_: Option<Bytes>,
                         anyOrigin: bool, notBefore: int, notAfter: int, nonce: Bytes)

  /** A permission for one enrolment. */
  datatype Authorisation = Authorisation(version: int, kindIsEnrol: bool, tik: Bytes, nonce: Bytes,
                                         notBefore: int, notAfter: int)

  const GRANT_VERSION: int := 1

  datatype Crypto = Crypto(
    sha256: Hash,
    sha384: Bytes -> Digest48,
    sha512: Bytes -> Digest64,
    hmac384: (Bytes, Bytes) -> Digest48,            // key, message
    entryBytes: Entry -> Bytes,
    sthBytes: (int, Bytes, int) -> Bytes,
    bundleBytes: seq<BundleEntry> -> Bytes,
    grantBytes: Grant -> Bytes,
    authorisationBytes: Authorisation -> Bytes,
    signedBy: (Bytes, Bytes, Bytes) -> bool,        // key, message, signature
    csrKey: Bytes -> Option<Bytes>,                 // None when the request is unusable
    verifyReport: (Bytes, Bytes) -> Appraisal)      // evidence, expected report data
}
