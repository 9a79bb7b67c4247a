/**
 * The chat notification: a fixed header followed by one bullet line
 * `- <name>\n` per missing task name, in whatever order the set yields
 * them. Both checkers build it with the same code. ParseMessage reads a
 * message back, so the bullet lines can be shown to match the missing
 * set one-to-one.
 */
module Notification {
  import opened Sequences
  import opened Planning

  /** The header line and the line introducing the list. */
  const Header: string := "\U{26A0}\U{FE0F} **Tomorrow is not fully planned!**\nMissing tasks with specific times:\n"

  function Bullet(name: string): string
  {
    "- " + name + "\n"
  }

  function Bullets(names: seq<string>): string
  {
    if names == [] then "" else Bullet(names[0]) + Bullets(names[1..])
  }

  lemma {:induction false} BulletsSnoc(names: seq<string>, name: string)
    ensures Bullets(names + [name]) == Bullets(names) + Bullet(name)
  {
    if names == [] {
      assert names + [name] == [name];
    } else {
      assert (names + [name])[1..] == names[1..] + [name];
      BulletsSnoc(names[1..], name);
    }
  }

  /**
   * Builds the message for `missing` (the webhook post itself is not part
   * of the model). `order` is the order in which the set was iterated.
   */
  method SendDiscordNotification(missing: set<string>) returns (message: string, order: seq<string>)
    ensures Enumerates(order, missing)
    ensures message == Header + Bullets(order)
    ensures (forall n :: n in missing ==> '\n' !in n) ==> Announces(message, missing)
  {
    message, order := Header, [];
    var rest := missing;
    while rest != {}
      invariant rest <= missing
      invariant Distinct(order)
      invariant forall n :: n in order ==> n in missing && n !in rest
      invariant forall n :: n in missing ==> n in order || n in rest
      invariant message == Header + Bullets(order)
      decreases |rest|
    {
      var name :| name in rest;
      BulletsSnoc(order, name);
      message := message + Bullet(name);
      order := order + [name];
      rest := rest - {name};
    }
    if forall n :: n in missing ==> '\n' !in n {
      MessageRoundTrip(order);
    }
  }

  /** The first line break at or after `i`, or `|s|` when there is none. */
  function NextNewline(s: string, i: nat): (j: nat)
    requires i <= |s|
    ensures i <= j <= |s|
    ensures forall m :: i <= m < j ==> s[m] != '\n'
    ensures j < |s| ==> s[j] == '\n'
    decreases |s| - i
  {
    if i == |s| || s[i] == '\n' then i else NextNewline(s, i + 1)
  }

  /** Reads a run of bullet lines back into the names they carry. */
  function ParseBullets(s: string): Option<seq<string>>
    decreases |s|
  {
    if s == [] then Some([])
    else if |s| < 2 || s[0] != '-' || s[1] != ' ' then None
    else
      var j := NextNewline(s, 2);
      if j == |s| then None
      else
        match ParseBullets(s[j + 1..])
        case None => None
        case Some(rest) => Some([s[2..j]] + rest)
  }

  /** Reads a notification back: the header, then the names of its bullet lines. */
  function ParseMessage(message: string): Option<seq<string>>
  {
    if Header <= message then ParseBullets(message[|Header|..]) else None
  }

  /** `message` is a notification whose bullet lines name each element of `missing` exactly once. */
  predicate Announces(message: string, missing: set<string>)
  {
    var parsed := ParseMessage(message);
    parsed.Some? && Enumerates(parsed.value, missing)
  }

  /** The line break ending a bullet line is the first one after its name. */
  lemma BulletLineEnd(n: string, tail: string)
    requires '\n' !in n
    ensures NextNewline(Bullet(n) + tail, 2) == 2 + |n|
  {
    var s := Bullet(n) + tail;
    assert forall k :: 0 <= k < |n| ==> n[k] != '\n';
    assert forall m :: 2 <= m < 2 + |n| ==> s[m] == n[m - 2];
    assert s[2 + |n|] == '\n';
  }

  /** Reading a bullet line of a name without line breaks yields that name, then whatever follows. */
  lemma ParseBulletsCons(n: string, tail: string)
    requires '\n' !in n
    ensures ParseBullets(Bullet(n) + tail) ==
      match ParseBullets(tail)
      case None => None
      case Some(rest) => Some([n] + rest)
  {
    var s := Bullet(n) + tail;
    BulletLineEnd(n, tail);
    assert s[0] == '-' && s[1] == ' ';
    assert s[2..2 + |n|] == n;
    assert s[2 + |n| + 1..] == tail;
  }

  lemma {:induction false} ParseBulletsRoundTrip(names: seq<string>)
    requires forall n :: n in names ==> '\n' !in n
    ensures ParseBullets(Bullets(names)) == Some(names)
  {
    if names != [] {
      assert names[0] in names;
      ParseBulletsCons(names[0], Bullets(names[1..]));
      ParseBulletsRoundTrip(names[1..]);
      assert [names[0]] + names[1..] == names;
    }
  }

  /** A message built from `names` reads back as exactly `names`, in order. */
  lemma MessageRoundTrip(names: seq<string>)
    requires forall n :: n in names ==> '\n' !in n
    ensures ParseMessage(Header + Bullets(names)) == Some(names)
  {
    var m := Header + Bullets(names);
    assert m[|Header|..] == Bullets(names);
    ParseBulletsRoundTrip(names);
  }

  /** Whatever ParseBullets accepts is exactly the bullet lines of the names it returns. */
  lemma {:induction false} ParseBulletsInverse(s: string)
    requires ParseBullets(s).Some?
    ensures s == Bullets(ParseBullets(s).value)
    decreases |s|
  {
    if s != [] {
      var j := NextNewline(s, 2);
      var name, tail := s[2..j], s[j + 1..];
      assert s == Bullet(name) + tail;
      ParseBulletsInverse(tail);
      assert ParseBullets(s).value == [name] + ParseBullets(tail).value;
    }
  }

  /**
   * The converse of MessageRoundTrip: a message that announces `missing`
   * is the header followed by one bullet line per element of `missing`,
   * each element once.
   */
  lemma AnnouncedMessageIsBuilt(message: string, missing: set<string>)
    requires Announces(message, missing)
    ensures exists order :: Enumerates(order, missing) && message == Header + Bullets(order)
  {
    var order := ParseMessage(message).value;
    ParseBulletsInverse(message[|Header|..]);
    assert message == Header + message[|Header|..];
    assert Enumerates(order, missing) && message == Header + Bullets(order);
  }

  /** A notification determines the set it announces. */
  lemma AnnouncedSetIsUnique(message: string, a: set<string>, b: set<string>)
    requires Announces(message, a) && Announces(message, b)
    ensures a == b
  {
  }
}
