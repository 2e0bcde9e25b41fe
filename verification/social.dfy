/** Messaging and following: message visibility and attachments, a
    profile's online status and typing indicator, following, sending,
    deleting and editing messages, and polling for new ones. `now` is a time
    in whole seconds; users are identified by number. */
module Social {
  import opened Wrappers
  import opened Text
  import opened Numerals
  import Uploads

  const SecondsPerDay := 86400

  /** `timedelta.seconds` of a difference in whole seconds: the seconds
      past the whole days, always in 0..86399, also for a negative
      difference. */
  function SecondsField(diff: int): (s: int)
    ensures 0 <= s < SecondsPerDay
    ensures 0 <= diff < SecondsPerDay ==> s == diff
  {
    diff % SecondsPerDay
  }

  /** `timedelta.days`: whole days, rounded down. */
  function DaysField(diff: int): int {
    diff / SecondsPerDay
  }

  // ---------------------------------------------------------------- messages

  datatype Message = Message(
    id: int, sender: int, receiver: int, content: string, messageType: string,
    hasFile: bool, filePath: string, fileName: string, fileSize: nat,
    isRead: bool, deletedBySender: bool, deletedByReceiver: bool, deletedForEveryone: bool,
    replyTo: Option<int>, createdAt: int, editedAt: Option<int>)

  /** `Message.is_visible_to`. */
  predicate IsVisibleTo(m: Message, user: int) {
    !m.deletedForEveryone
    && !(user == m.sender && m.deletedBySender)
    && !(user == m.receiver && m.deletedByReceiver)
  }

  /** Deleting for everyone hides from all; each side flag hides only from
      its own side (for a message between two different users). */
  lemma VisibilityFlags(m: Message, user: int)
    requires m.sender != m.receiver
    ensures m.deletedForEveryone ==> !IsVisibleTo(m, user)
    ensures !m.deletedForEveryone && m.deletedBySender && !m.deletedByReceiver ==>
      (IsVisibleTo(m, user) <==> user != m.sender)
    ensures !m.deletedForEveryone && m.deletedByReceiver && !m.deletedBySender ==>
      (IsVisibleTo(m, user) <==> user != m.receiver)
  {
  }

  const ImageExtensions := ["jpg", "jpeg", "png", "gif", "webp"]

  /** `get_file_extension`: "" without a file. */
  function FileExtension(m: Message): (ext: string)
    ensures !m.hasFile ==> ext == ""
    ensures m.hasFile ==> ext == ExtOf(m.filePath)
  {
    if m.hasFile then ExtOf(m.filePath) else ""
  }

  /** `is_image`. */
  predicate IsImage(m: Message) {
    FileExtension(m) in ImageExtensions
  }

  lemma NoFileNoImage(m: Message)
    requires !m.hasFile
    ensures !IsImage(m)
  {
  }

  datatype SizeUnit = Bytes | Kilobytes | Megabytes

  /** The unit `format_file_size` prints the size in. */
  function SizeUnitOf(size: nat): (u: SizeUnit)
    ensures u == Bytes <==> size < 1024
    ensures u == Kilobytes <==> 1024 <= size < 1024 * 1024
    ensures u == Megabytes <==> 1024 * 1024 <= size
  {
    if size < 1024 then Bytes else if size < 1024 * 1024 then Kilobytes else Megabytes
  }

  // ---------------------------------------------------------------- profiles

  datatype Profile = Profile(isOnline: bool, lastSeen: Option<int>, typingTo: Option<int>,
                             typingStartedAt: Option<int>, showOnlineStatus: bool, allowMessages: bool)

  function UpdateOnlineStatus(p: Profile, now: int): (r: Profile)
    ensures r.isOnline && r.lastSeen == Some(now)
    ensures r.typingTo == p.typingTo && r.typingStartedAt == p.typingStartedAt
  {
    p.(isOnline := true, lastSeen := Some(now))
  }

  function SetOffline(p: Profile, now: int): (r: Profile)
    ensures !r.isOnline && r.lastSeen == Some(now) && r.typingTo.None?
    ensures r.typingStartedAt == p.typingStartedAt
  {
    p.(isOnline := false, lastSeen := Some(now), typingTo := None)
  }

  function StartTyping(p: Profile, to: int, now: int): (r: Profile)
    ensures r.typingTo == Some(to) && r.typingStartedAt == Some(now)
    ensures r.isOnline == p.isOnline && r.lastSeen == p.lastSeen
  {
    p.(typingTo := Some(to), typingStartedAt := Some(now))
  }

  function StopTyping(p: Profile): (r: Profile)
    ensures r.typingTo.None? && r.typingStartedAt.None?
    ensures r.isOnline == p.isOnline && r.lastSeen == p.lastSeen
  {
    p.(typingTo := None, typingStartedAt := None)
  }

  /** A typing target always comes with its start time. */
  predicate TypingConsistent(p: Profile) {
    p.typingTo.Some? ==> p.typingStartedAt.Some?
  }

  /** Every profile operation keeps the typing target and its start time
      together. */
  lemma TypingConsistentPreserved(p: Profile, to: int, now: int)
    requires TypingConsistent(p)
    ensures TypingConsistent(UpdateOnlineStatus(p, now))
    ensures TypingConsistent(SetOffline(p, now))
    ensures TypingConsistent(StartTyping(p, to, now))
    ensures TypingConsistent(StopTyping(p))
  {
  }

  // ---------------------------------------------------------------- online status

  datatype Presence =
    | HiddenStatus | OnlineNow | JustNow | MinutesAgo(minutes: int) | HoursAgo(hours: int)
    | DaysAgo(days: int) | LongAgo

  /** The text `get_online_status_display` returns for a presence. */
  function PresenceText(p: Presence): string {
    match p
    case HiddenStatus => ""
    case OnlineNow => "Online"
    case JustNow => "Hozirgina"
    case MinutesAgo(m) => IntToString(m) + " daqiqa oldin"
    case HoursAgo(h) => IntToString(h) + " soat oldin"
    case DaysAgo(d) => IntToString(d) + " kun oldin"
    case LongAgo => "Uzoq vaqt oldin"
  }

  /** `get_online_status_display` as written: the buckets are chosen by
      `diff.seconds`, the seconds past whole days. */
  function OnlineStatusAsWritten(p: Profile, now: int): (r: Presence)
    ensures !p.showOnlineStatus <==> r == HiddenStatus
    ensures p.showOnlineStatus && p.isOnline ==> r == OnlineNow
    ensures p.showOnlineStatus && !p.isOnline && p.lastSeen.None? ==> r == LongAgo
  {
    if !p.showOnlineStatus then HiddenStatus
    else if p.isOnline then OnlineNow
    else match p.lastSeen
      case None => LongAgo
      case Some(seen) =>
        var s := SecondsField(now - seen);
        if s < 60 then JustNow
        else if s < 3600 then MinutesAgo(s / 60)
        else if s < SecondsPerDay then HoursAgo(s / 3600)
        else DaysAgo(DaysField(now - seen))
  }

  /** As written, the day bucket can never be reached. */
  lemma DaysBucketUnreachable(p: Profile, now: int)
    ensures !OnlineStatusAsWritten(p, now).DaysAgo?
  {
  }

  /** As written, a user last seen two days and thirty seconds ago shows as
      "just now". */
  lemma TwoDaysShownAsJustNow(now: int)
    ensures OnlineStatusAsWritten(Profile(false, Some(now - 2 * SecondsPerDay - 30), None, None, true, true), now) == JustNow
  {
  }

  /** `get_online_status_display` with the buckets chosen by the whole
      elapsed time, as the day bucket intends. */
  function OnlineStatus(p: Profile, now: int): (r: Presence)
    ensures !p.showOnlineStatus <==> r == HiddenStatus
    ensures p.showOnlineStatus && p.isOnline ==> r == OnlineNow
    ensures p.showOnlineStatus && !p.isOnline && p.lastSeen.None? ==> r == LongAgo
  {
    if !p.showOnlineStatus then HiddenStatus
    else if p.isOnline then OnlineNow
    else match p.lastSeen
      case None => LongAgo
      case Some(seen) =>
        var d := now - seen;
        if d < 60 then JustNow
        else if d < 3600 then MinutesAgo(d / 60)
        else if d < SecondsPerDay then HoursAgo(d / 3600)
        else DaysAgo(DaysField(d))
  }

  /** The intended display reports the elapsed time in its largest whole
      unit: the number shown, times its unit, is at most the elapsed time
      and one more unit exceeds it. */
  lemma OnlineStatusMeasures(p: Profile, now: int)
    requires p.showOnlineStatus && !p.isOnline && p.lastSeen.Some?
    ensures var d := now - p.lastSeen.value;
      match OnlineStatus(p, now)
      case JustNow => d < 60
      case MinutesAgo(m) => 60 <= d < 3600 && m * 60 <= d < (m + 1) * 60
      case HoursAgo(h) => 3600 <= d < SecondsPerDay && h * 3600 <= d < (h + 1) * 3600
      case DaysAgo(k) => SecondsPerDay <= d && k * SecondsPerDay <= d < (k + 1) * SecondsPerDay
      case _ => false
  {
  }

  // ---------------------------------------------------------------- following

  /** The `Follow` rows as (follower, following) pairs; the pair is unique,
      so a set. */
  type Follows = set<(int, int)>

  datatype FollowResult = FollowSelf | Toggled(isFollowing: bool, followers: Follows)

  /** `toggle_follow`. */
  function ToggleFollow(fs: Follows, me: int, other: int): (r: FollowResult)
    ensures me == other <==> r == FollowSelf
    ensures r.Toggled? ==> r.isFollowing == ((me, other) !in fs)
    ensures r.Toggled? ==> ((me, other) in r.followers <==> r.isFollowing)
    ensures r.Toggled? ==> forall f :: f != (me, other) ==> (f in r.followers <==> f in fs)
  {
    if me == other then FollowSelf
    else if (me, other) in fs then Toggled(false, fs - {(me, other)})
    else Toggled(true, fs + {(me, other)})
  }

  /** Toggling twice restores the follows. */
  lemma ToggleTwice(fs: Follows, me: int, other: int)
    requires me != other
    ensures ToggleFollow(ToggleFollow(fs, me, other).followers, me, other).followers == fs
  {
  }

  // ---------------------------------------------------------------- sending

  const MaxContentLength := 2000
  const SendLimit := 30
  const SendPeriod := 60

  /** The body of a send: a multipart form (text and an optional file) or a
      JSON body (text only). `replyTo` is the requested reply target as the
      request gives it. */
  datatype SendRequest =
    | Multipart(content: string, messageType: string, file: Option<Uploads.Upload>, replyTo: ReplyRef)
    | JsonBody(content: string, replyTo: ReplyRef)

  /** A `reply_to` value: absent (or null), a JSON number, or a text (a form
      field is always text). */
  datatype ReplyRef = NoReply | ReplyNumber(n: int) | ReplyText(text: string)

  datatype SendError =
    | RateLimited | MessagesNotAllowed | NothingToSend | EmptyMessage | TooLong
    | UploadRejected(error: Uploads.UploadError)

  /** What `send_message` answers: why nothing was kept; the stored message
      and the sender's profile with typing stopped; or, when the reply
      lookup raised, the message that stays stored while the view fails with
      `failure` before typing is stopped. */
  datatype SendOutcome =
    | Refused(error: SendError)
    | Sent(message: Message, senderProfile: Profile)
    | Failed(message: Message, failure: string)

  /** The directory attachments are stored under. */
  const ChatFiles := "chat_files/"

  /** The extension `send_message` classifies an attachment by: "" when the
      name has no dot. */
  function AttachmentExtension(name: string): (ext: string)
    ensures '.' !in name ==> ext == ""
    ensures '.' in name ==> ext == ExtOf(name)
    ensures '.' in name ==> ext == Lower(Split(name, '.')[|Split(name, '.')| - 1]) && |Split(name, '.')| > 1
  {
    if '.' in name then ExtOfIsLastSplit(name); SplitHasSeparator(name, '.'); ExtOf(name) else ""
  }

  function HasMessage(ms: seq<Message>, id: int): bool {
    exists i :: 0 <= i < |ms| && ms[i].id == id
  }

  /** `if reply_to_id:`. */
  predicate IsTruthy(ref: ReplyRef) {
    match ref
    case NoReply => false
    case ReplyNumber(n) => n != 0
    case ReplyText(t) => t != ""
  }

  /** The id `Message.objects.get(id=...)` looks up: a number as it is, a
      text through `int()`; None when `int()` raises `ValueError`. */
  function TargetId(ref: ReplyRef): Option<int> {
    match ref
    case NoReply => None
    case ReplyNumber(n) => Some(n)
    case ReplyText(t) => ParseInt(t)
  }

  /** The reply lookup over the stored messages `stored`: no link for a falsy
      `reply_to` or a missing target (`DoesNotExist` is caught), the target's
      id when it is stored, and the uncaught `ValueError` for a text that is
      not a number. */
  function ReplyLink(stored: seq<Message>, ref: ReplyRef): (r: Read<Option<int>>)
    ensures r.Raised? <==> ref.ReplyText? && ref.text != "" && ParseInt(ref.text).None?
    ensures r.Returned? && r.value.Some? ==>
      IsTruthy(ref) && TargetId(ref) == r.value && HasMessage(stored, r.value.value)
    ensures IsTruthy(ref) && TargetId(ref).Some? && HasMessage(stored, TargetId(ref).value) ==>
      r == Returned(TargetId(ref))
    ensures !IsTruthy(ref) ==> r == Returned(None)
  {
    if !IsTruthy(ref) then Returned(None)
    else match TargetId(ref)
      case None => Raised("Field 'id' expected a number but got '" + ref.text + "'.")
      case Some(id) => Returned(if HasMessage(stored, id) then Some(id) else None)
  }

  /** The message is created before the reply lookup, which therefore also
      sees it; a link is recorded, or the lookup raises and the message stays
      stored without one. */
  function LinkReply(ms: seq<Message>, m: Message, ref: ReplyRef, stopped: Profile): (r: SendOutcome)
    ensures r.Sent? || r.Failed?
    ensures r.message == m.(replyTo := r.message.replyTo)
    ensures ReplyLink(ms + [m], ref).Raised? ==> r == Failed(m, ReplyLink(ms + [m], ref).message)
    ensures ReplyLink(ms + [m], ref).Returned? ==> r == Sent(m.(replyTo := ReplyLink(ms + [m], ref).value), stopped)
  {
    match ReplyLink(ms + [m], ref)
    case Raised(e) => Failed(m, e)
    case Returned(link) => Sent(m.(replyTo := link), stopped)
  }

  function NewMessage(id: int, sender: int, receiver: int, content: string, messageType: string,
                      now: int): Message {
    Message(id, sender, receiver, content, messageType, false, "", "", 0,
            false, false, false, false, None, now, None)
  }

  /** `send_message` after the rate limit: the new message (with id
      `nextId`), or why none was kept. A multipart attachment that fails
      validation removes the just-created message. The sender's profile
      stops typing after a send. */
  function SendMessage(ms: seq<Message>, receiverAllows: bool, sender: int, senderProfile: Profile,
                       receiver: int, req: SendRequest, nextId: int, now: int): (r: SendOutcome)
    ensures !receiverAllows ==> r == Refused(MessagesNotAllowed)
    ensures !r.Refused? ==> |r.message.content| <= MaxContentLength && r.message.content == Strip(req.content)
    ensures !r.Refused? ==> r.message.sender == sender && r.message.receiver == receiver && r.message.id == nextId
    ensures !r.Refused? ==> !r.message.isRead && r.message.createdAt == now && r.message.editedAt.None?
    ensures r.Sent? ==> r.senderProfile == StopTyping(senderProfile)
    ensures !r.Refused? && req.JsonBody? ==> r.message.content != "" && r.message.messageType == "text"
    ensures !r.Refused? && req.Multipart? ==> r.message.content != "" || req.file.Some?
    ensures !r.Refused? && (req.JsonBody? || req.file.None?) ==> r.message.messageType == "text" && !r.message.hasFile
    ensures !r.Refused? && req.Multipart? && req.file.Some? ==>
      Uploads.ValidateUpload(req.file, Uploads.ChatFile).None?
      && r.message.hasFile && r.message.fileSize == req.file.value.size
      && r.message.fileName == Uploads.SanitizeFilename(req.file.value.name)
      && r.message.filePath == ChatFiles + r.message.fileName
      && (r.message.messageType == "image" <==> AttachmentExtension(r.message.fileName) in ImageExtensions)
      && (r.message.messageType == "image" || r.message.messageType == "file")
    ensures (receiverAllows && req.Multipart? && req.file.Some?
             && Uploads.ValidateUpload(req.file, Uploads.ChatFile).Some?) ==> r.Refused?
    ensures !r.Refused? ==> (r.Failed? <==> ReplyLink(ms + [r.message.(replyTo := None)], req.replyTo).Raised?)
    ensures r.Sent? ==> r.message.replyTo == ReplyLink(ms + [r.message.(replyTo := None)], req.replyTo).value
    ensures r.Failed? ==> r.message.replyTo.None?
  {
    if !receiverAllows then Refused(MessagesNotAllowed)
    else
      var content := Strip(req.content);
      var stopped := StopTyping(senderProfile);
      match req
      case JsonBody(_, replyTo) =>
        if content == "" then Refused(EmptyMessage)
        else if |content| > MaxContentLength then Refused(TooLong)
        else LinkReply(ms, NewMessage(nextId, sender, receiver, content, "text", now), replyTo, stopped)
      case Multipart(_, _, file, replyTo) =>
        if content == "" && file.None? then Refused(NothingToSend)
        else if |content| > MaxContentLength then Refused(TooLong)
        else match file
          case None => LinkReply(ms, NewMessage(nextId, sender, receiver, content, "text", now), replyTo, stopped)
          case Some(f) =>
            match Uploads.ValidateUpload(file, Uploads.ChatFile)
            case Some(e) => Refused(UploadRejected(e))
            case None =>
              var safe := Uploads.SanitizeFilename(f.name);
              var kind := if AttachmentExtension(safe) in ImageExtensions then "image" else "file";
              LinkReply(ms, NewMessage(nextId, sender, receiver, content, kind, now)
                              .(hasFile := true, filePath := ChatFiles + safe, fileName := safe, fileSize := f.size),
                        replyTo, stopped)
  }

  /** A reply to the id the new message itself receives links the message
      to itself, since the lookup runs after the message is stored. */
  lemma {:induction false} ReplyToSelf(ms: seq<Message>, sender: int, senderProfile: Profile, receiver: int,
                    req: SendRequest, nextId: int, now: int)
    requires nextId != 0 && req.replyTo == ReplyNumber(nextId)
    ensures var r := SendMessage(ms, true, sender, senderProfile, receiver, req, nextId, now);
      !r.Refused? ==> r.Sent? && r.message.replyTo == Some(nextId)
  {
    var r := SendMessage(ms, true, sender, senderProfile, receiver, req, nextId, now);
    if !r.Refused? {
      var m := r.message.(replyTo := None);
      assert (ms + [m])[|ms|].id == nextId;
    }
  }

  /** A `reply_to` text that is not a number does not stop the message from
      being stored, but the view then fails without stopping typing. */
  lemma {:induction false} NonNumericReplyFails(ms: seq<Message>, sender: int, senderProfile: Profile, receiver: int,
                             req: SendRequest, nextId: int, now: int)
    requires req.replyTo == ReplyText("abc")
    ensures var r := SendMessage(ms, true, sender, senderProfile, receiver, req, nextId, now);
      !r.Refused? ==> r.Failed? && r.message.id == nextId && r.message.replyTo.None?
  {
    assert !IsIntLiteral(Strip("abc")) by {
      StripUnspaced("abc");
      assert !IsDigit("abc"[0]);
    }
  }

  /** The decorated view: 30 sends per minute per key, then the send. */
  function SendMessageLimited(counters: Uploads.Counters, key: string, ms: seq<Message>, receiverAllows: bool,
                              sender: int, senderProfile: Profile, receiver: int, req: SendRequest,
                              nextId: int, now: int): (r: (SendOutcome, Uploads.Counters))
    ensures Uploads.CountOf(counters, key) >= SendLimit <==> r.0 == Refused(RateLimited)
    ensures Uploads.CountOf(counters, key) < SendLimit ==>
      r.0 == SendMessage(ms, receiverAllows, sender, senderProfile, receiver, req, nextId, now)
      && Uploads.CountOf(r.1, key) == Uploads.CountOf(counters, key) + 1
  {
    var (ok, c2) := Uploads.Admit(counters, key, SendLimit);
    if ok then (SendMessage(ms, receiverAllows, sender, senderProfile, receiver, req, nextId, now), c2)
    else (Refused(RateLimited), c2)
  }

  /** The extension a send classifies an attachment by and the extension
      `is_image` reads from the stored path name the same image type; a
      name without a dot is a plain file either way, since the whole
      stored path is then longer than any image extension. */
  lemma StoredExtensionAgrees(safe: string)
    ensures AttachmentExtension(safe) in ImageExtensions <==> ExtOf(ChatFiles + safe) in ImageExtensions
  {
    if '.' in safe {
      ExtOfPrefixed(ChatFiles, safe);
    } else {
      var path := ChatFiles + safe;
      assert '.' !in ChatFiles;
      LastPieceWithout(path, '.');
      assert |ExtOf(path)| > 4;
    }
  }

  /** The type a send gives an attachment agrees with `is_image` on the
      stored message. */
  lemma AttachmentTypeMatchesIsImage(ms: seq<Message>, sender: int, senderProfile: Profile, receiver: int,
                                     req: SendRequest, nextId: int, now: int)
    requires req.Multipart? && req.file.Some?
    requires SendMessage(ms, true, sender, senderProfile, receiver, req, nextId, now).Sent?
    ensures var m := SendMessage(ms, true, sender, senderProfile, receiver, req, nextId, now).message;
      m.messageType == "image" <==> IsImage(m)
  {
    var m := SendMessage(ms, true, sender, senderProfile, receiver, req, nextId, now).message;
    StoredExtensionAgrees(m.fileName);
  }

  // ---------------------------------------------------------------- delete and edit

  const EditWindow := 900
  const TypingTimeout := 10

  datatype DeleteResult =
    | DeleteForbidden | DeleteTooLate | DeletedForEveryone(m: Message) | DeletedForMe(m: Message)

  /** `delete_message` with the elapsed time as the view measures it. */
  function DeleteWith(m: Message, user: int, forEveryone: bool, elapsed: int): (r: DeleteResult)
    ensures user != m.sender && user != m.receiver <==> r == DeleteForbidden
    ensures r.DeletedForEveryone? ==>
              user == m.sender && forEveryone && elapsed <= EditWindow
              && r.m == m.(deletedForEveryone := true, content := "", hasFile := false, filePath := "")
    ensures r.DeletedForMe? ==>
              !(forEveryone && user == m.sender)
              && r.m == (if user == m.sender then m.(deletedBySender := true) else m.(deletedByReceiver := true))
    ensures r == DeleteTooLate ==> user == m.sender && forEveryone && elapsed > EditWindow
  {
    if user != m.sender && user != m.receiver then DeleteForbidden
    else if forEveryone && user == m.sender then
      if elapsed <= EditWindow then
        DeletedForEveryone(m.(deletedForEveryone := true, content := "", hasFile := false, filePath := ""))
      else DeleteTooLate
    else if user == m.sender then DeletedForMe(m.(deletedBySender := true))
    else DeletedForMe(m.(deletedByReceiver := true))
  }

  /** As written: the window is checked on `time_diff.seconds`. */
  function DeleteMessageAsWritten(m: Message, user: int, forEveryone: bool, now: int): (r: DeleteResult)
    ensures r.DeletedForEveryone? ==> (now - m.createdAt) % SecondsPerDay <= EditWindow
  {
    DeleteWith(m, user, forEveryone, SecondsField(now - m.createdAt))
  }

  /** As written, a day and a minute after sending the sender can again
      delete for everyone. */
  lemma DeleteWindowReopens(m: Message, now: int)
    requires now == m.createdAt + SecondsPerDay + 60
    ensures DeleteMessageAsWritten(m, m.sender, true, now).DeletedForEveryone?
  {
  }

  /** `delete_message` with the window on the whole elapsed time. */
  function DeleteMessage(m: Message, user: int, forEveryone: bool, now: int): (r: DeleteResult)
    ensures r.DeletedForEveryone? ==> now - m.createdAt <= EditWindow
  {
    DeleteWith(m, user, forEveryone, now - m.createdAt)
  }

  /** After deleting for everyone the message is invisible to both sides
      and its text is gone; deleting for oneself hides it from oneself only. */
  lemma DeleteEffect(m: Message, user: int, forEveryone: bool, now: int, other: int)
    requires m.sender != m.receiver
    ensures var r := DeleteMessage(m, user, forEveryone, now);
      (r.DeletedForEveryone? ==> !IsVisibleTo(r.m, other) && r.m.content == "")
      && (r.DeletedForMe? ==>
            !IsVisibleTo(r.m, user) && (other != user && IsVisibleTo(m, other) ==> IsVisibleTo(r.m, other)))
  {
  }

  datatype EditResult = EditNotFound | NotText | EditTooLate | EditEmpty | EditTooLong | Edited(m: Message)

  /** `edit_message` with the elapsed time as the view measures it. */
  function EditWith(m: Message, user: int, raw: string, now: int, elapsed: int): (r: EditResult)
    ensures r.Edited? <==>
              (user == m.sender && m.messageType == "text" && elapsed <= EditWindow
               && Strip(raw) != "" && |Strip(raw)| <= MaxContentLength)
    ensures r.Edited? ==> r.m == m.(content := Strip(raw), editedAt := Some(now))
  {
    if user != m.sender then EditNotFound
    else if m.messageType != "text" then NotText
    else if elapsed > EditWindow then EditTooLate
    else
      var c := Strip(raw);
      if c == "" then EditEmpty
      else if |c| > MaxContentLength then EditTooLong
      else Edited(m.(content := c, editedAt := Some(now)))
  }

  /** As written: the window is checked on `time_diff.seconds`. */
  function EditMessageAsWritten(m: Message, user: int, raw: string, now: int): (r: EditResult)
    ensures r.Edited? ==> (now - m.createdAt) % SecondsPerDay <= EditWindow && user == m.sender
  {
    EditWith(m, user, raw, now, SecondsField(now - m.createdAt))
  }

  /** As written, a text message can be edited again a day after sending. */
  lemma EditWindowReopens(m: Message, raw: string, now: int)
    requires m.messageType == "text" && Strip(raw) != "" && |Strip(raw)| <= MaxContentLength
    requires now == m.createdAt + SecondsPerDay + 60
    ensures EditMessageAsWritten(m, m.sender, raw, now).Edited?
  {
  }

  /** `edit_message` with the window on the whole elapsed time. */
  function EditMessage(m: Message, user: int, raw: string, now: int): (r: EditResult)
    ensures r.Edited? ==> now - m.createdAt <= EditWindow && user == m.sender
  {
    EditWith(m, user, raw, now, now - m.createdAt)
  }

  // ---------------------------------------------------------------- polling

  /** Whether the other user is shown typing to `me`, given how the elapsed
      time since typing started is measured. */
  function TypingWith(other: Profile, me: int, elapsed: int -> int, now: int): bool {
    other.typingTo == Some(me)
    && !(other.typingStartedAt.Some? && elapsed(now - other.typingStartedAt.value) > TypingTimeout)
  }

  /** As written: the indicator expires on `.seconds`. */
  function IsTypingAsWritten(other: Profile, me: int, now: int): (b: bool)
    ensures b ==> other.typingTo == Some(me)
    ensures b && other.typingStartedAt.Some? ==> (now - other.typingStartedAt.value) % SecondsPerDay <= TypingTimeout
  {
    TypingWith(other, me, SecondsField, now)
  }

  /** As written, typing that started a day and five seconds ago is still
      shown. */
  lemma StaleTypingShown(other: Profile, me: int, now: int)
    requires other.typingTo == Some(me) && other.typingStartedAt == Some(now - SecondsPerDay - 5)
    ensures IsTypingAsWritten(other, me, now)
  {
  }

  function Identity(x: int): int {
    x
  }

  /** The typing indicator on the whole elapsed time: shown only when the
      other user types to me and started at most 10 seconds ago (or the
      start is unknown). */
  function IsTyping(other: Profile, me: int, now: int): (b: bool)
    ensures b ==> other.typingTo == Some(me)
    ensures b && other.typingStartedAt.Some? ==> now - other.typingStartedAt.value <= TypingTimeout
  {
    TypingWith(other, me, Identity, now)
  }

  /** `int(last_id)`, with 0 when the parameter is absent or not a number. */
  function LastId(param: Option<string>): (id: int)
    ensures param.None? ==> id == 0
    ensures param.Some? && ParseInt(param.value).Some? ==> id == ParseInt(param.value).value
    ensures param.Some? && ParseInt(param.value).None? ==> id == 0
  {
    match param
    case None => 0
    case Some(s) => match ParseInt(s) case None => 0 case Some(v) => v
  }

  /** A message `get_new_messages` returns. */
  predicate Fresh(m: Message, other: int, me: int, lastId: int) {
    m.sender == other && m.receiver == me && m.id > lastId
    && !m.deletedForEveryone && !m.deletedByReceiver
  }

  function NewMessages(ms: seq<Message>, other: int, me: int, lastId: int): (r: seq<Message>)
    ensures forall i :: 0 <= i < |r| ==> Fresh(r[i], other, me, lastId)
    ensures forall i :: 0 <= i < |ms| && Fresh(ms[i], other, me, lastId) ==> ms[i] in r
    ensures forall i :: 0 <= i < |r| ==> r[i] in ms
  {
    if |ms| == 0 then []
    else
      var rest := NewMessages(ms[1..], other, me, lastId);
      if Fresh(ms[0], other, me, lastId) then [ms[0]] + rest else rest
  }

  function MarkRead(m: Message, other: int, me: int, lastId: int): Message {
    if Fresh(m, other, me, lastId) then m.(isRead := true) else m
  }

  datatype Poll = Poll(messages: seq<Message>, isTyping: bool, stored: seq<Message>, myProfile: Profile)

  /** `get_new_messages`: the fresh messages from the other user, which are
      then marked read; my profile goes online; the typing indicator. */
  function GetNewMessages(ms: seq<Message>, me: int, other: int, lastIdParam: Option<string>,
                          myProfile: Profile, otherProfile: Profile, now: int): (r: Poll)
    ensures r.messages == NewMessages(ms, other, me, LastId(lastIdParam))
    ensures |r.stored| == |ms|
    ensures forall i :: 0 <= i < |ms| ==>
      r.stored[i] == (if Fresh(ms[i], other, me, LastId(lastIdParam)) then ms[i].(isRead := true) else ms[i])
    ensures r.myProfile == UpdateOnlineStatus(myProfile, now)
    ensures r.isTyping == IsTyping(otherProfile, me, now)
  {
    var lastId := LastId(lastIdParam);
    Poll(NewMessages(ms, other, me, lastId), IsTyping(otherProfile, me, now),
         seq(|ms|, i requires 0 <= i < |ms| => MarkRead(ms[i], other, me, lastId)),
         UpdateOnlineStatus(myProfile, now))
  }

  /** Every polled message from another user is one I may see. */
  lemma PolledAreVisible(ms: seq<Message>, me: int, other: int, lastIdParam: Option<string>,
                         myProfile: Profile, otherProfile: Profile, now: int)
    requires me != other
    ensures var r := GetNewMessages(ms, me, other, lastIdParam, myProfile, otherProfile, now);
      forall i :: 0 <= i < |r.messages| ==> IsVisibleTo(r.messages[i], me)
  {
  }
}
