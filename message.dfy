/** The message record of the chat service and the rules that change one record.
    The socket hub and the HTTP routes apply the same rules, so they live here once. */
module Messages {

  datatype Option<T> = None | Some(value: T)

  /** A payload field as the server receives it: absent (`undefined` or `null`),
      a string, or any other JSON value, described by its truthiness and by what
      `toString()` makes of it. */
  datatype Json = Absent | Str(s: string) | Other(truthy: bool, shown: string)

  /** JavaScript truthiness of a payload field. */
  predicate Truthy(j: Json) {
    match j
    case Absent => false
    case Str(s) => s != ""
    case Other(t, _) => t
  }

  /** `j.toString()`, for a field already known to be present. */
  function Shown(j: Json): string {
    match j
    case Absent => ""
    case Str(s) => s
    case Other(_, sh) => sh
  }

  /** `(j || '').toString()`: a falsy field reads as the empty string. */
  function OrEmpty(j: Json): (r: string)
    ensures !Truthy(j) ==> r == ""
    ensures Truthy(j) ==> r == Shown(j)
  {
    if Truthy(j) then Shown(j) else ""
  }

  /** A record id: one the repository assigned, or the `<timestamp>-<random>`
      string a record gets when it is kept only in the in-memory fallback. */
  datatype MessageId = StoreId(n: nat) | LocalId(stamp: int, suffix: string)

  /** One chat message, with the fields of the repository's message schema. */
  datatype Message = Message(
    id: MessageId,
    username: string,
    text: string,
    fileId: Option<string>,
    fileName: Option<string>,
    fileMime: Option<string>,
    createdAt: int,
    deleted: bool,
    edited: bool,
    editedAt: Option<int>,
    originalText: string,
    likes: seq<string>)

  const MaxText: nat := 4000
  const MaxFileName: nat := 256
  const MaxFileMime: nat := 128
  const DeletedMarker: string := "[deleted]"

  /** `s.slice(0, n)`: the longest prefix of `s` with at most `n` characters. */
  function Truncate(s: string, n: nat): (r: string)
    ensures |r| == if |s| <= n then |s| else n
    ensures r <= s
  {
    if |s| <= n then s else s[..n]
  }

  predicate Distinct<T(==)>(s: seq<T>) {
    forall i, j :: 0 <= i < j < |s| ==> s[i] != s[j]
  }

  /** The schema defaults a record has when nothing has happened to it yet. */
  predicate Pristine(m: Message) {
    && !m.deleted
    && !m.edited
    && m.editedAt == None
    && m.originalText == ""
    && m.likes == []
  }

  /** `Message.create(...)`: validation fails when the required `username` is
      empty; otherwise the given fields are stored and the rest take their defaults. */
  function NewMessage(id: MessageId, username: string, text: string,
                      fileId: Option<string>, fileName: Option<string>, fileMime: Option<string>,
                      createdAt: int): (r: Option<Message>)
    ensures r.Some? <==> username != ""
    ensures r.Some? ==> Pristine(r.value)
    ensures r.Some? ==> r.value.id == id && r.value.username == username && r.value.text == text
    ensures r.Some? ==> r.value.fileId == fileId && r.value.fileName == fileName && r.value.fileMime == fileMime
    ensures r.Some? ==> r.value.createdAt == createdAt
  {
    if username == "" then None
    else Some(Message(id, username, text, fileId, fileName, fileMime, createdAt,
                      false, false, None, "", []))
  }

  /** The server accepts a text message with an empty body and no file. */
  lemma EmptyTextAccepted(id: MessageId, username: string, now: int)
    requires username != ""
    ensures var r := NewMessage(id, username, "", None, None, None, now);
            r.Some? && r.value.text == "" && r.value.fileId == None
  {
  }

  /** `likes.indexOf(user)`: the first position of `user`, or -1. */
  function IndexOf(s: seq<string>, x: string): (r: int)
    ensures -1 <= r < |s|
    ensures r == -1 <==> x !in s
    ensures 0 <= r ==> s[r] == x && x !in s[..r]
  {
    if s == [] then -1
    else if s[0] == x then 0
    else
      var i := IndexOf(s[1..], x);
      assert s[1..][..if i < 0 then 0 else i] == s[1..1 + (if i < 0 then 0 else i)];
      if i == -1 then -1 else i + 1
  }

  /** The like toggle: append `user` when absent, otherwise splice out its first
      occurrence and keep every other liker in place. */
  function ToggleLike(likes: seq<string>, user: string): (r: seq<string>)
    ensures user !in likes ==> r == likes + [user]
    ensures user in likes ==>
      exists i :: 0 <= i < |likes| && likes[i] == user && user !in likes[..i]
                  && r == likes[..i] + likes[i + 1..]
    ensures user in likes ==> |r| == |likes| - 1
  {
    var idx := IndexOf(likes, user);
    if idx == -1 then likes + [user]
    else likes[..idx] + likes[idx + 1..]
  }

  lemma {:induction false} RemoveAtMultiset(s: seq<string>, i: nat)
    requires i < |s|
    ensures multiset(s[..i] + s[i + 1..]) == multiset(s) - multiset{s[i]}
  {
    assert s == s[..i] + [s[i]] + s[i + 1..];
    calc {
      multiset(s);
      multiset(s[..i] + [s[i]] + s[i + 1..]);
      multiset(s[..i]) + multiset{s[i]} + multiset(s[i + 1..]);
    }
  }

  /** Toggling changes the multiset of likers by exactly one `user` and no one else. */
  lemma ToggleLikeMultiset(likes: seq<string>, user: string)
    ensures user !in likes ==> multiset(ToggleLike(likes, user)) == multiset(likes) + multiset{user}
    ensures user in likes ==> multiset(ToggleLike(likes, user)) == multiset(likes) - multiset{user}
    ensures forall v :: v != user ==> multiset(ToggleLike(likes, user))[v] == multiset(likes)[v]
  {
    if user in likes {
      var i := IndexOf(likes, user);
      RemoveAtMultiset(likes, i);
    }
  }

  /** Splicing one element out of a duplicate-free list keeps it duplicate-free
      and removes that element. */
  lemma RemoveAtDistinct(s: seq<string>, i: nat)
    requires Distinct(s) && i < |s|
    ensures Distinct(s[..i] + s[i + 1..]) && s[i] !in s[..i] + s[i + 1..]
  {
    var r := s[..i] + s[i + 1..];
    assert forall k :: 0 <= k < |r| ==> r[k] == s[if k < i then k else k + 1];
  }

  /** With no duplicate likers, a toggle flips whether `user` likes the message
      and keeps the list free of duplicates. */
  lemma ToggleLikeFlips(likes: seq<string>, user: string)
    requires Distinct(likes)
    ensures (user in ToggleLike(likes, user)) <==> (user !in likes)
    ensures Distinct(ToggleLike(likes, user))
  {
    if user in likes {
      RemoveAtDistinct(likes, IndexOf(likes, user));
    } else {
      var r := likes + [user];
      assert forall k :: 0 <= k < |likes| ==> r[k] == likes[k];
    }
  }

  /** Toggling twice restores exactly who likes the message (as a multiset), and
      restores the list itself when `user` did not like it before. */
  lemma ToggleLikeTwice(likes: seq<string>, user: string)
    requires Distinct(likes)
    ensures multiset(ToggleLike(ToggleLike(likes, user), user)) == multiset(likes)
    ensures user !in likes ==> ToggleLike(ToggleLike(likes, user), user) == likes
  {
    var once := ToggleLike(likes, user);
    ToggleLikeFlips(likes, user);
    ToggleLikeMultiset(likes, user);
    ToggleLikeMultiset(once, user);
    if user !in likes {
      var i := IndexOf(once, user);
      assert once[|likes|] == user;
      assert i == |likes|;
      assert once[..i] == likes;
    }
  }

  /** Toggling twice need not restore the order of the likers. */
  lemma ToggleLikeTwiceReorders()
    ensures ToggleLike(ToggleLike(["ann", "bob"], "ann"), "ann") == ["bob", "ann"]
  {
    assert IndexOf(["ann", "bob"], "ann") == 0;
    assert IndexOf(["bob"], "ann") == -1;
  }

  /** The soft-delete scrub: marks the record deleted, replaces the text by the
      deletion marker and clears `fileId` and `fileName`; everything else stays. */
  function Scrub(m: Message): (r: Message)
    ensures r.deleted && r.text == DeletedMarker && r.fileId == None && r.fileName == None
    ensures r.id == m.id && r.username == m.username && r.fileMime == m.fileMime
    ensures r.likes == m.likes && r.createdAt == m.createdAt
    ensures r.edited == m.edited && r.editedAt == m.editedAt && r.originalText == m.originalText
  {
    m.(deleted := true, text := DeletedMarker, fileId := None, fileName := None)
  }

  /** Deleting twice leaves the record as deleting once did. */
  lemma ScrubIdempotent(m: Message)
    ensures Scrub(Scrub(m)) == Scrub(m)
  {
  }

  /** The edit rule: snapshot the current text into `originalText` only when
      `originalText` is empty, store the first 4000 characters of the new text,
      and mark the record edited at `now`. */
  function ApplyEdit(m: Message, text: string, now: int): (r: Message)
    ensures r.text == Truncate(text, MaxText)
    ensures r.originalText == if m.originalText == "" then m.text else m.originalText
    ensures r.edited && r.editedAt == Some(now)
    ensures r.id == m.id && r.username == m.username && r.deleted == m.deleted
    ensures r.fileId == m.fileId && r.fileName == m.fileName && r.fileMime == m.fileMime
    ensures r.likes == m.likes && r.createdAt == m.createdAt
  {
    var original := if m.originalText == "" then m.text else m.originalText;
    m.(originalText := original, text := Truncate(text, MaxText), edited := true, editedAt := Some(now))
  }

  /** The first edit of a never-edited message with non-empty text snapshots that
      text, and a second edit keeps the snapshot while the text changes. Likes,
      file fields and the deleted flag play no part. */
  lemma EditSnapshotsOnce(m: Message, first: string, second: string, t1: int, t2: int)
    requires !m.edited && m.originalText == "" && m.text != ""
    ensures ApplyEdit(m, first, t1).originalText == m.text
    ensures ApplyEdit(ApplyEdit(m, first, t1), second, t2).originalText == m.text
    ensures ApplyEdit(ApplyEdit(m, first, t1), second, t2).text == Truncate(second, MaxText)
  {
  }

  /** An empty snapshot is indistinguishable from no snapshot: a message whose
      text was empty (a file message) records its first edited text as the
      original on the second edit. */
  lemma EditResnapshotsEmptyOriginal(m: Message, first: string, second: string, t1: int, t2: int)
    requires m.text == "" && m.originalText == ""
    ensures ApplyEdit(m, first, t1).originalText == ""
    ensures ApplyEdit(ApplyEdit(m, first, t1), second, t2).originalText == Truncate(first, MaxText)
  {
  }
}
