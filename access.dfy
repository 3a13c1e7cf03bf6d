/** The access page: which stored file a link asks for, and the decision made
    once the store has answered, from the object's metadata, the password
    typed in and the current time. */
module Access {
  import opened Seqs
  import opened Text
  import opened Quoting

  /** The store's `context.custom` metadata: string keys to string values. */
  type Metadata = map<string, string>

  /** What the store's resource lookup returned: the object's metadata, or
      the store's not-found error. */
  datatype Lookup = Absent | Present(custom: Metadata)

  /** The terminal states of the access page. */
  datatype Outcome =
    | NotFound                 // the store has no object with this id
    | Unmanaged                // the object carries no metadata
    | Expired                  // the expiry time has passed
    | Granted(minsLeft: int)   // correct password; minutes shown as remaining
    | Denied                   // a non-empty attempt that does not match
    | AwaitingInput            // nothing typed yet: no message at all

  /** The id the access page is opened for: the `file` query parameter, when
      it is present and non-empty; otherwise the upload page is shown. */
  function RequestedFile(url: seq<byte>): (id: Option<seq<byte>>)
    ensures id.Some? ==> id.value != [] && Param(url, FileKey) == id
    ensures id.None? ==> Param(url, FileKey) in {None, Some([])}
  {
    match Param(url, FileKey)
    case Some(v) => if v != [] then Some(v) else None
    case None => None
  }

  /** Following a shared link opens the access page for the very id that was
      quoted into it. */
  lemma LinkOpensAccessPage(base: seq<byte>, id: seq<byte>)
    requires Question !in base && id != []
    ensures RequestedFile(Link(base, id)) == Some(id)
  {
    LinkRoundTrip(base, id);
  }

  /** `str(metadata.get("password"))`: a missing password reads as "None". */
  function StoredPassword(meta: Metadata): (p: string)
    ensures "password" in meta ==> p == meta["password"]
    ensures "password" !in meta ==> p == "None"
  {
    if "password" in meta then meta["password"] else "None"
  }

  /** `int(float(raw)) if raw else 0` restricted to integer text: the number, or
      0 when the text is empty or not a number. */
  function ParseExpiry(raw: string): (t: int)
  {
    if raw == [] then 0
    else match ParseInteger(raw)
      case Some(v) => v
      case None => 0
  }

  /** The expiry time of an object; 0 (never) when the key is missing. */
  function ExpiryOf(meta: Metadata): (t: int)
  {
    if "expires_at" in meta then ParseExpiry(meta["expires_at"]) else 0
  }

  /** Python's `int(x / y)` for integers with `y > 0`: division truncated toward zero. */
  function TruncDiv(x: int, y: int): (q: int)
    requires y > 0
    ensures x >= 0 ==> q * y <= x < (q + 1) * y
    ensures x < 0 ==> (q - 1) * y < x <= q * y
  {
    if x >= 0 then x / y else -((-x) / y)
  }

  /** `max(1, int((expires_at - now) / 60))`. */
  function MinsLeft(expiresAt: int, now: int): (m: int)
    ensures m >= 1
  {
    var q := TruncDiv(expiresAt - now, 60);
    if q < 1 then 1 else q
  }

  /** The access decision, in the order the page makes its checks. */
  function Decide(lookup: Lookup, attempt: string, now: int): (o: Outcome)
    ensures o.Granted? ==> o.minsLeft >= 1
    ensures o.NotFound? <==> lookup.Absent?
  {
    match lookup
    case Absent => NotFound
    case Present(meta) =>
      if meta == map[] then Unmanaged
      else
        var expiresAt := ExpiryOf(meta);
        if expiresAt != 0 && now > expiresAt then Expired
        else if Strip(attempt) == Strip(StoredPassword(meta)) then Granted(MinsLeft(expiresAt, now))
        else if attempt != [] then Denied
        else AwaitingInput
  }

  /** An object without metadata is reported as unmanaged before any expiry or
      password check, whatever was typed and whenever. */
  lemma UnmanagedFirst(attempt: string, now: int)
    ensures Decide(Present(map[]), attempt, now) == Unmanaged
  {
  }

  /** Expiry dominates: once the expiry time has passed, every attempt, the
      correct one included, is answered with Expired. */
  lemma ExpiryDominates(meta: Metadata, attempt: string, now: int)
    requires ExpiryOf(meta) != 0 && now > ExpiryOf(meta)
    ensures Decide(Present(meta), attempt, now) == Expired
  {
  }

  /** The page reports Expired exactly when the object has a non-zero expiry
      time and the clock is strictly past it (an object without metadata has
      expiry time 0). */
  lemma ExpiredIff(meta: Metadata, attempt: string, now: int)
    ensures Decide(Present(meta), attempt, now) == Expired <==> ExpiryOf(meta) != 0 && now > ExpiryOf(meta)
  {
  }

  /** At the exact expiry second the object is still accessible. */
  lemma ExpiryBoundary(meta: Metadata, attempt: string)
    ensures Decide(Present(meta), attempt, ExpiryOf(meta)) != Expired
  {
  }

  /** A missing, empty or non-numeric `expires_at` reads as 0, and an expiry
      time of 0 means the object never expires. */
  lemma NoExpiryNeverExpires(meta: Metadata, attempt: string, now: int)
    requires "expires_at" !in meta || meta["expires_at"] == [] || ParseInteger(meta["expires_at"]).None?
    ensures ExpiryOf(meta) == 0
    ensures Decide(Present(meta), attempt, now) != Expired
  {
  }

  /** What `str(n)` writes as `expires_at` is read back as `n`. */
  lemma ExpiryRoundTrip(n: int)
    ensures ParseExpiry(IntToDecimal(n)) == n
  {
    IntDecimalRoundTrip(n);
  }

  /** For a managed object that has not expired, the three remaining outcomes
      are told apart by the stripped comparison and by the raw attempt. */
  lemma PasswordCheck(meta: Metadata, attempt: string, now: int)
    requires meta != map[]
    requires !(ExpiryOf(meta) != 0 && now > ExpiryOf(meta))
    ensures Decide(Present(meta), attempt, now).Granted? <==> Strip(attempt) == Strip(StoredPassword(meta))
    ensures Decide(Present(meta), attempt, now) == Denied <==>
              Strip(attempt) != Strip(StoredPassword(meta)) && attempt != []
    ensures Decide(Present(meta), attempt, now) == AwaitingInput <==>
              Strip(attempt) != Strip(StoredPassword(meta)) && attempt == []
  {
  }

  /** An all-whitespace attempt is Denied, not awaited, when the stored
      password has visible characters: the emptiness test looks at the raw text. */
  lemma BlankAttemptDenied(meta: Metadata, attempt: string, now: int)
    requires meta != map[]
    requires !(ExpiryOf(meta) != 0 && now > ExpiryOf(meta))
    requires attempt != [] && AllSpace(attempt) && !AllSpace(StoredPassword(meta))
    ensures Decide(Present(meta), attempt, now) == Denied
  {
    StripEmptyIff(attempt);
    StripEmptyIff(StoredPassword(meta));
  }

  /** Leading and trailing whitespace around the attempt never changes
      whether access is granted, nor the minutes then shown. */
  lemma PaddingIrrelevant(meta: Metadata, pad1: string, attempt: string, pad2: string, now: int)
    requires AllSpace(pad1) && AllSpace(pad2)
    ensures Decide(Present(meta), pad1 + attempt + pad2, now).Granted? <==> Decide(Present(meta), attempt, now).Granted?
    ensures Decide(Present(meta), pad1 + attempt + pad2, now).Granted? ==>
              Decide(Present(meta), pad1 + attempt + pad2, now) == Decide(Present(meta), attempt, now)
  {
    StripPadded(pad1, attempt, pad2);
  }

  /** An object without a stored password opens for the attempt "None". */
  lemma MissingPasswordIsNone(meta: Metadata, now: int)
    requires meta != map[] && "password" !in meta
    requires !(ExpiryOf(meta) != 0 && now > ExpiryOf(meta))
    ensures Decide(Present(meta), "None", now).Granted?
  {
  }

  /** The minutes shown on success: never below 1; with an expiry time at least
      a minute ahead, the whole minutes left, rounded down. */
  lemma MinsLeftBounds(expiresAt: int, now: int)
    ensures MinsLeft(expiresAt, now) >= 1
    ensures expiresAt - now >= 60 ==>
              MinsLeft(expiresAt, now) * 60 <= expiresAt - now < (MinsLeft(expiresAt, now) + 1) * 60
    ensures expiresAt - now < 120 ==> MinsLeft(expiresAt, now) == 1
  {
  }

  /** For an object that never expires the page shows 1 minute left, for any
      clock reading since the epoch. */
  lemma MinsLeftNoExpiry(now: int)
    requires now >= 0
    ensures MinsLeft(0, now) == 1
  {
  }
}
