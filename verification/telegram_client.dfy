/**
  The Telegram user client's allow-list (clients/telegram/client.py). The
  `TELEGRAM_ALLOWED_GROUPS` setting names the groups the bot may answer in;
  at start-up the client walks its dialogs and records the ids of the group
  and channel dialogs so named; afterwards a message from any other chat is
  dropped before it reaches the message manager.
*/
module Telegram {
  import opened Wrappers
  import opened Text

  /** Non-empty, with no whitespace at either end: what `g.strip()` gives when it is truthy. */
  predicate IsStripped(g: string) {
    g != [] && !IsSpace(g[0]) && !IsSpace(g[|g| - 1])
  }

  /** A usable allow-list entry: stripped, non-empty and without a comma. */
  predicate IsGroupName(g: string) {
    IsStripped(g) && ',' !in g
  }

  /** `[g.strip() for g in pieces if g.strip()]`. */
  function StrippedNonEmpty(pieces: seq<string>): (groups: seq<string>)
    ensures |groups| <= |pieces|
    ensures forall i :: 0 <= i < |groups| ==> IsStripped(groups[i])
    decreases |pieces|
  {
    if pieces == [] then []
    else
      var g := Strip(pieces[0], IsSpace);
      var rest := StrippedNonEmpty(pieces[1..]);
      if g != [] then assert IsStripped(g); [g] + rest else rest
  }

  /** One piece gives its stripped text, or nothing when only whitespace is left. */
  lemma StrippedNonEmptyOne(piece: string)
    ensures StrippedNonEmpty([piece]) == if Strip(piece, IsSpace) != [] then [Strip(piece, IsSpace)] else []
  {
    assert [piece][1..] == [];
  }

  /** The comprehension works piece by piece, in order: pieces `a` then `b` give the names of `a` then those of `b`. */
  lemma {:induction false} StrippedNonEmptyAppend(a: seq<string>, b: seq<string>)
    ensures StrippedNonEmpty(a + b) == StrippedNonEmpty(a) + StrippedNonEmpty(b)
    decreases |a|
  {
    if a == [] {
      assert a + b == b;
    } else {
      assert (a + b)[0] == a[0];
      assert (a + b)[1..] == a[1..] + b;
      StrippedNonEmptyAppend(a[1..], b);
    }
  }

  /** Every piece that is not blank gives a kept name. */
  lemma {:induction false} PieceNameIsKept(pieces: seq<string>, i: nat)
    requires i < |pieces| && Strip(pieces[i], IsSpace) != []
    ensures Strip(pieces[i], IsSpace) in StrippedNonEmpty(pieces)
    decreases |pieces|
  {
    var g := Strip(pieces[0], IsSpace);
    var rest := StrippedNonEmpty(pieces[1..]);
    assert StrippedNonEmpty(pieces) == if g != [] then [g] + rest else rest;
    if i > 0 {
      assert pieces[1..][i - 1] == pieces[i];
      PieceNameIsKept(pieces[1..], i - 1);
    }
  }

  /** Stripping never brings in a comma, so comma-free pieces give comma-free names. */
  lemma {:induction false} StrippedNonEmptyCommaFree(pieces: seq<string>)
    requires forall i :: 0 <= i < |pieces| ==> ',' !in pieces[i]
    ensures forall i :: 0 <= i < |StrippedNonEmpty(pieces)| ==> ',' !in StrippedNonEmpty(pieces)[i]
    decreases |pieces|
  {
    if pieces != [] {
      var g := Strip(pieces[0], IsSpace);
      assert ',' !in g by {
        StripIsPiece(pieces[0], IsSpace);
        ContainsKeepsOut(pieces[0], g, ',');
      }
      assert forall i :: 0 <= i < |pieces[1..]| ==> ',' !in pieces[1..][i] by {
        forall i | 0 <= i < |pieces[1..]|
          ensures ',' !in pieces[1..][i]
        {
          assert pieces[1..][i] == pieces[i + 1];
        }
      }
      StrippedNonEmptyCommaFree(pieces[1..]);
      var rest := StrippedNonEmpty(pieces[1..]);
      var all := StrippedNonEmpty(pieces);
      assert all == if g != [] then [g] + rest else rest;
      forall i | 0 <= i < |all|
        ensures ',' !in all[i]
      {
        if g == [] {
          assert all[i] == rest[i];
        } else if i > 0 {
          assert all[i] == rest[i - 1];
        }
      }
    }
  }

  /** The allow-list as parsed from the raw setting (`''` when the variable is unset). */
  function ParseAllowedGroups(raw: string): (groups: seq<string>)
    ensures forall i :: 0 <= i < |groups| ==> IsGroupName(groups[i])
    ensures |groups| <= |Split(raw, ',')|
  {
    StrippedNonEmptyCommaFree(Split(raw, ','));
    StrippedNonEmpty(Split(raw, ','))
  }

  /** Pieces that are already usable names pass through the comprehension unchanged and in order. */
  lemma {:induction false} StrippedNonEmptyKeepsNames(names: seq<string>)
    requires forall i :: 0 <= i < |names| ==> IsGroupName(names[i])
    ensures StrippedNonEmpty(names) == names
    decreases |names|
  {
    if names != [] {
      StripKeeps(names[0], IsSpace);
      StrippedNonEmptyKeepsNames(names[1..]);
      assert names == [names[0]] + names[1..];
    }
  }

  /** Writing usable names comma-separated and parsing the setting gives the same names in the same order. */
  lemma ParseJoinedGroups(names: seq<string>)
    requires forall i :: 0 <= i < |names| ==> IsGroupName(names[i])
    ensures ParseAllowedGroups(Join(names, ",")) == names
  {
    if names == [] {
      assert Split([], ',') == [[]];
      assert Strip([], IsSpace) == [];
    } else {
      SplitJoin(names, ',');
      StrippedNonEmptyKeepsNames(names);
    }
  }

  /** Every entry of the setting that is not blank is allowed, trimmed. */
  lemma NonBlankEntryIsAllowed(raw: string, i: nat)
    requires i < |Split(raw, ',')| && Strip(Split(raw, ',')[i], IsSpace) != []
    ensures Strip(Split(raw, ',')[i], IsSpace) in ParseAllowedGroups(raw)
  {
    PieceNameIsKept(Split(raw, ','), i);
  }

  /** Settings joined by a comma allow the groups of the first followed by those of the second. */
  lemma ParseJoinedSettings(a: string, b: string)
    ensures ParseAllowedGroups(a + "," + b) == ParseAllowedGroups(a) + ParseAllowedGroups(b)
  {
    SplitAppend(a, b, ',');
    StrippedNonEmptyAppend(Split(a, ','), Split(b, ','));
  }

  /** With the setting unset or empty, no group is allowed. */
  lemma EmptySettingAllowsNoGroup()
    ensures ParseAllowedGroups("") == []
  {
    assert Split([], ',') == [[]];
    assert Strip([], IsSpace) == [];
  }

  /** The kind of a dialog's entity; only `Chat` and `Channel` count as groups. */
  datatype EntityKind = ChatEntity | ChannelEntity | UserEntity | OtherEntity

  datatype Dialog = Dialog(id: int, name: string, kind: EntityKind)

  /** The dialog is a group or channel whose name is on the list (exact string equality). */
  predicate Admits(groups: seq<string>, d: Dialog) {
    (d.kind.ChatEntity? || d.kind.ChannelEntity?) && d.name in groups
  }

  /** The ids of the admitted dialogs. */
  function AdmittedIds(groups: seq<string>, dialogs: seq<Dialog>): (ids: set<int>)
    ensures forall i :: 0 <= i < |dialogs| && Admits(groups, dialogs[i]) ==> dialogs[i].id in ids
    ensures forall id :: id in ids ==> exists i :: 0 <= i < |dialogs| && Admits(groups, dialogs[i]) && dialogs[i].id == id
  {
    set i | 0 <= i < |dialogs| && Admits(groups, dialogs[i]) :: dialogs[i].id
  }

  /** A dialog whose name starts or ends with whitespace can never match a parsed allow-list. */
  lemma PaddedDialogNameNeverAdmitted(raw: string, d: Dialog)
    requires d.name != [] && (IsSpace(d.name[0]) || IsSpace(d.name[|d.name| - 1]))
    ensures !Admits(ParseAllowedGroups(raw), d)
  {
  }

  /** An incoming message as the message manager receives it. */
  datatype NewMessage = NewMessage(chatId: int, text: string)

  class TelegramUserClient {
    const allowedGroups: seq<string>
    var allowedChatIds: set<int>
    /** The events handed to the message manager, in order. */
    var delivered: seq<NewMessage>

    /** `__init__`: the allow-list from the setting, no chat ids yet, nothing delivered. */
    constructor(allowedGroupsSetting: Option<string>)
      ensures allowedGroups == ParseAllowedGroups(if allowedGroupsSetting.Some? then allowedGroupsSetting.value else "")
      ensures allowedChatIds == {} && delivered == []
    {
      allowedGroups := ParseAllowedGroups(if allowedGroupsSetting.Some? then allowedGroupsSetting.value else "");
      allowedChatIds := {};
      delivered := [];
    }

    /** `_resolve_allowed_chats`: the set only grows, by exactly the ids of the admitted dialogs. */
    method ResolveAllowedChats(dialogs: seq<Dialog>)
      modifies this`allowedChatIds
      ensures allowedChatIds == old(allowedChatIds) + AdmittedIds(allowedGroups, dialogs)
    {
      var i := 0;
      while i < |dialogs|
        invariant 0 <= i <= |dialogs|
        invariant allowedChatIds == old(allowedChatIds) + AdmittedIds(allowedGroups, dialogs[..i])
      {
        var dialog := dialogs[i];
        assert dialogs[..i + 1] == dialogs[..i] + [dialog];
        if dialog.kind.ChatEntity? || dialog.kind.ChannelEntity? {
          if dialog.name in allowedGroups {
            allowedChatIds := allowedChatIds + {dialog.id};
          }
        }
        i := i + 1;
      }
      assert dialogs[..|dialogs|] == dialogs;
    }

    /** `handle_new_message`: a message is passed on exactly when its chat is allowed. */
    method HandleNewMessage(event: NewMessage)
      modifies this`delivered
      ensures delivered == old(delivered) + (if event.chatId in allowedChatIds then [event] else [])
    {
      if event.chatId !in allowedChatIds {
        return;
      }
      delivered := delivered + [event];
    }
  }
}
