/** Mentions inside a message (`<@id>`, `<@!id>`, `<#id>`, `<@&id>`, custom
    emoji `<:name:id>`), as they look after escaping, and the name lookups
    that resolve them (`get_member`, `client.get_channel`, `get_role_name`
    and the `re.match` in `transform_token`, bot.py). */
module References {
  import opened PyStr

  datatype Option<T> = None | Some(value: T)

  /** A lookup the source performs on a missing object: the Python code then
      reads an attribute of `None` and raises `AttributeError`. */
  datatype LookupError = UnknownUser(user: nat) | UnknownChannel(channel: nat)

  datatype Result<T> = Ok(value: T) | Err(error: LookupError)

  datatype Member = Member(id: nat, displayName: string)
  datatype Role = Role(id: nat, name: string)

  /** What the client knows: the members of every guild in the order
      `get_all_members` yields them, the users it can fetch by id (with
      their display names), the channels by id, and the role list of every
      guild in guild order. */
  datatype Directory = Directory(
    members: seq<Member>,
    users: map<nat, string>,
    channels: map<nat, string>,
    guildRoles: seq<seq<Role>>)

  const InvalidRole: string := "invalid-role"

  /** The colour of mentions and links. */
  const Link: string := "#0096cf"

  // ================================================================ lookups

  /** The first member with the given id, as `get_member`'s loop finds it. */
  function FindMember(members: seq<Member>, id: nat): (r: Option<string>)
    ensures r.None? <==> forall i | 0 <= i < |members| :: members[i].id != id
    ensures r.Some? ==> exists i | 0 <= i < |members| ::
      members[i].id == id && members[i].displayName == r.value &&
      forall j | 0 <= j < i :: members[j].id != id
  {
    if members == [] then None
    else if members[0].id == id then Some(members[0].displayName)
    else
      var r := FindMember(members[1..], id);
      assert r.Some? ==> exists i | 1 <= i < |members| ::
        members[i].id == id && members[i].displayName == r.value &&
        forall j | 0 <= j < i :: members[j].id != id by {
        if r.Some? {
          var i :| 0 <= i < |members[1..]| && members[1..][i].id == id &&
            members[1..][i].displayName == r.value &&
            forall j | 0 <= j < i :: members[1..][j].id != id;
          assert members[i + 1] == members[1..][i];
          forall j | 0 <= j < i + 1
            ensures members[j].id != id
          {
            if j > 0 {
              assert members[j] == members[1..][j - 1];
            }
          }
        }
      }
      r
  }

  /** `get_member(id).display_name`: a guild member first, then a user the
      client can fetch; if neither exists the source fails. */
  function MemberName(dir: Directory, id: nat): (r: Result<string>)
    ensures r.Err? <==> (forall i | 0 <= i < |dir.members| :: dir.members[i].id != id) && id !in dir.users
    ensures r.Err? ==> r.error == UnknownUser(id)
    ensures r.Ok? && FindMember(dir.members, id).None? ==> r.value == dir.users[id]
    ensures FindMember(dir.members, id).Some? ==> r == Ok(FindMember(dir.members, id).value)
  {
    match FindMember(dir.members, id)
    case Some(name) => Ok(name)
    case None => if id in dir.users then Ok(dir.users[id]) else Err(UnknownUser(id))
  }

  /** `client.get_channel(id).name`. */
  function ChannelName(dir: Directory, id: nat): (r: Result<string>)
    ensures r.Ok? <==> id in dir.channels
    ensures r.Ok? ==> r.value == dir.channels[id]
    ensures r.Err? ==> r.error == UnknownChannel(id)
  {
    if id in dir.channels then Ok(dir.channels[id]) else Err(UnknownChannel(id))
  }

  /** The role list of one guild, searched in order. */
  function FindRole(roles: seq<Role>, id: nat): (r: Option<string>)
    ensures r.None? <==> forall k | 0 <= k < |roles| :: roles[k].id != id
    ensures r.Some? ==> exists k | 0 <= k < |roles| ::
      roles[k].id == id && roles[k].name == r.value &&
      forall j | 0 <= j < k :: roles[j].id != id
  {
    if roles == [] then None
    else if roles[0].id == id then Some(roles[0].name)
    else
      var r := FindRole(roles[1..], id);
      assert r.Some? ==> exists k | 1 <= k < |roles| ::
        roles[k].id == id && roles[k].name == r.value &&
        forall j | 0 <= j < k :: roles[j].id != id by {
        if r.Some? {
          var k :| 0 <= k < |roles[1..]| && roles[1..][k].id == id &&
            roles[1..][k].name == r.value &&
            forall j | 0 <= j < k :: roles[1..][j].id != id;
          assert roles[k + 1] == roles[1..][k];
          forall j | 0 <= j < k + 1
            ensures roles[j].id != id
          {
            if j > 0 {
              assert roles[j] == roles[1..][j - 1];
            }
          }
        }
      }
      r
  }

  /** `get_role_name`: the first guild holding a role with that id decides
      its name; when no guild has one the name is `invalid-role`. */
  function RoleName(guildRoles: seq<seq<Role>>, id: nat): (r: string)
    ensures (forall g | 0 <= g < |guildRoles| :: FindRole(guildRoles[g], id).None?) ==> r == InvalidRole
    ensures forall g | 0 <= g < |guildRoles| && FindRole(guildRoles[g], id).Some? ::
      (forall h | 0 <= h < g :: FindRole(guildRoles[h], id).None?) ==> r == FindRole(guildRoles[g], id).value
  {
    if guildRoles == [] then InvalidRole
    else
      match FindRole(guildRoles[0], id)
      case Some(name) => name
      case None =>
        var r := RoleName(guildRoles[1..], id);
        assert forall g | 1 <= g < |guildRoles| :: guildRoles[g] == guildRoles[1..][g - 1];
        r
  }

  // ==================================================== the mention pattern

  /** What `re.match('&lt;(.*?)([0-9]+)>', word)` captures. */
  datatype RefMatch = RefMatch(prefix: string, digits: string)

  const RefOpen: string := "&lt;"

  /** `[0-9]` matches the ASCII digits only. */
  predicate IsDigit(c: char) {
    '0' <= c <= '9'
  }

  /** The length of the longest run of digits at the start of `s`. */
  function DigitRun(s: string): (n: nat)
    ensures n <= |s|
    ensures forall i | 0 <= i < n :: IsDigit(s[i])
    ensures n < |s| ==> !IsDigit(s[n])
  {
    if s != [] && IsDigit(s[0]) then 1 + DigitRun(s[1..]) else 0
  }

  /** `([0-9]+)>` matches at the start of `t`. The digit run is greedy and a
      shorter run would be followed by a digit, so only the longest run can
      be followed by the `>`. */
  predicate DigitsThenClose(t: string) {
    var n := DigitRun(t);
    0 < n < |t| && t[n] == '>'
  }

  /** Group 1 may be `rest[..k]`: `.` does not match a newline. */
  ghost predicate GroupOneFits(rest: string, k: nat) {
    k <= |rest| && '\n' !in rest[..k] && DigitsThenClose(rest[k..])
  }

  /** The lazy `(.*?)`: try group 1 of length `n`, `n + 1`, ... until the
      rest matches, the text ends or a newline stops the `.`. */
  function LazySearch(rest: string, n: nat): (r: Option<nat>)
    requires n <= |rest|
    ensures r.Some? ==> n <= r.value <= |rest|
    decreases |rest| - n
  {
    if DigitsThenClose(rest[n..]) then Some(n)
    else if n == |rest| || rest[n] == '\n' then None
    else LazySearch(rest, n + 1)
  }

  /** `re.match`, anchored at the start of the word; whatever follows the
      `>` is not part of the match. */
  function ParseRef(word: string): Option<RefMatch> {
    if !StartsWith(word, RefOpen) then None
    else
      var rest := word[|RefOpen|..];
      match LazySearch(rest, 0)
      case None => None
      case Some(k) =>
        var t := rest[k..];
        Some(RefMatch(rest[..k], t[..DigitRun(t)]))
  }

  /** Declarative reading of the pattern: the word begins with `&lt;`, a
      newline-free group 1, a non-empty run of digits and `>`. */
  ghost predicate IsRefMatch(word: string, prefix: string, digits: string) {
    StartsWith(word, RefOpen + prefix + digits + ">") &&
    '\n' !in prefix && digits != [] && forall i | 0 <= i < |digits| :: IsDigit(digits[i])
  }

  lemma {:induction false} LazySearchFindsLeast(rest: string, n: nat)
    requires n <= |rest| && '\n' !in rest[..n]
    requires forall k | 0 <= k < n :: !GroupOneFits(rest, k)
    ensures LazySearch(rest, n).Some? ==>
      GroupOneFits(rest, LazySearch(rest, n).value) &&
      forall k | 0 <= k < LazySearch(rest, n).value :: !GroupOneFits(rest, k)
    ensures LazySearch(rest, n).None? ==> forall k :: !GroupOneFits(rest, k)
    decreases |rest| - n
  {
    if DigitsThenClose(rest[n..]) {
    } else if n == |rest| {
    } else if rest[n] == '\n' {
      forall k | n < k
        ensures !GroupOneFits(rest, k)
      {
        if k <= |rest| {
          assert rest[..k][n] == '\n';
        }
      }
    } else {
      assert rest[..n + 1] == rest[..n] + [rest[n]];
      LazySearchFindsLeast(rest, n + 1);
    }
  }

  /** The shape of a match with a given group 1: `word` starts with `&lt;`,
      group 1 fits at its length, and the digits are the longest run after
      it. */
  ghost predicate MatchAt(word: string, prefix: string, digits: string) {
    StartsWith(word, RefOpen) &&
    GroupOneFits(word[|RefOpen|..], |prefix|) &&
    prefix == word[|RefOpen|..][..|prefix|] &&
    digits == word[|RefOpen|..][|prefix|..][..DigitRun(word[|RefOpen|..][|prefix|..])]
  }

  /** A match with a given group 1 is determined by it. */
  lemma RefMatchAt(word: string, prefix: string, digits: string)
    ensures IsRefMatch(word, prefix, digits) <==> MatchAt(word, prefix, digits)
  {
    if IsRefMatch(word, prefix, digits) {
      RefMatchDecomposes(word, prefix, digits);
    }
    if MatchAt(word, prefix, digits) {
      MatchAtComposes(word, prefix, digits);
    }
  }

  lemma RefMatchDecomposes(word: string, prefix: string, digits: string)
    requires IsRefMatch(word, prefix, digits)
    ensures MatchAt(word, prefix, digits)
  {
    var whole := RefOpen + prefix + digits + ">";
    var tail := word[|whole|..];
    assert word == whole + tail;
    var t := digits + (">" + tail);
    var rest := prefix + t;
    assert word == RefOpen + rest;
    assert word[|RefOpen|..] == rest && rest[..|prefix|] == prefix && rest[|prefix|..] == t;
    DigitsBeforeClose(t, digits, tail);
  }

  /** Digits followed by `>` are what `([0-9]+)>` matches. */
  lemma DigitsBeforeClose(t: string, digits: string, tail: string)
    requires t == digits + (">" + tail)
    requires digits != [] && forall i | 0 <= i < |digits| :: IsDigit(digits[i])
    ensures DigitsThenClose(t) && t[..DigitRun(t)] == digits
  {
    assert t[|digits|] == '>';
    DigitRunExact(t, |digits|);
    assert t[..|digits|] == digits;
  }

  lemma MatchAtComposes(word: string, prefix: string, digits: string)
    requires MatchAt(word, prefix, digits)
    ensures IsRefMatch(word, prefix, digits)
  {
    var tail := MatchAtSplits(word, prefix, digits);
    var whole := RefOpen + prefix + digits + ">";
    assert (whole + tail)[..|whole|] == whole;
  }

  lemma MatchAtSplits(word: string, prefix: string, digits: string) returns (tail: string)
    requires MatchAt(word, prefix, digits)
    ensures word == RefOpen + prefix + digits + ">" + tail
  {
    var rest := word[|RefOpen|..];
    var t := rest[|prefix|..];
    tail := DigitsCloseSplit(t, digits);
    assert word == RefOpen + rest;
    assert rest == prefix + t;
    Reassociate(word, rest, prefix, t, digits, tail);
  }

  /** The digits and the `>` after them split off the front of `t`. */
  lemma DigitsCloseSplit(t: string, digits: string) returns (tail: string)
    requires DigitsThenClose(t) && digits == t[..DigitRun(t)]
    ensures t == digits + ">" + tail
  {
    var n := DigitRun(t);
    tail := t[n + 1..];
    assert t == t[..n] + [t[n]] + t[n + 1..];
  }

  lemma Reassociate(word: string, rest: string, prefix: string, t: string, digits: string, tail: string)
    requires word == RefOpen + rest && rest == prefix + t && t == digits + ">" + tail
    ensures word == RefOpen + prefix + digits + ">" + tail
  {
  }

  /** A run of digits that ends at a non-digit is the longest run. */
  lemma {:induction false} DigitRunExact(t: string, n: nat)
    requires n < |t| && !IsDigit(t[n]) && forall i | 0 <= i < n :: IsDigit(t[i])
    ensures DigitRun(t) == n
  {
    if n > 0 {
      DigitRunExact(t[1..], n - 1);
    }
  }

  /** `re.match` finds the match whose group 1 is shortest, that match is
      the only one with so short a group 1, and there is no match when it
      finds none. */
  lemma ParseRefSpec(word: string)
    ensures ParseRef(word).Some? ==>
      var m := ParseRef(word).value;
      IsRefMatch(word, m.prefix, m.digits) &&
      forall p, d | IsRefMatch(word, p, d) && |p| <= |m.prefix| :: p == m.prefix && d == m.digits
    ensures ParseRef(word).None? ==> forall p, d :: !IsRefMatch(word, p, d)
  {
    if StartsWith(word, RefOpen) {
      var rest := word[|RefOpen|..];
      LazySearchFindsLeast(rest, 0);
      match LazySearch(rest, 0)
      case None =>
        forall p, d
          ensures !IsRefMatch(word, p, d)
        {
          RefMatchAt(word, p, d);
        }
      case Some(k) =>
        var m := ParseRef(word).value;
        RefMatchAt(word, m.prefix, m.digits);
        forall p, d | IsRefMatch(word, p, d) && |p| <= |m.prefix|
          ensures p == m.prefix && d == m.digits
        {
          RefMatchAt(word, p, d);
        }
    } else {
      forall p, d
        ensures !IsRefMatch(word, p, d)
      {
        RefMatchAt(word, p, d);
      }
    }
  }

  // ============================================================ int(group 2)

  function DigitValue(c: char): nat
    requires IsDigit(c)
  {
    (c as int - '0' as int) as nat
  }

  function Digit(d: nat): (c: char)
    requires d < 10
    ensures IsDigit(c) && DigitValue(c) == d
  {
    ('0' as int + d) as char
  }

  /** `int(digits)` for a non-empty string of ASCII digits (leading zeros
      are allowed, as in Python). */
  function DigitsValue(digits: string): nat
    requires forall i | 0 <= i < |digits| :: IsDigit(digits[i])
  {
    if digits == [] then 0
    else 10 * DigitsValue(digits[..|digits| - 1]) + DigitValue(digits[|digits| - 1])
  }

  /** The decimal numeral of `n`, as a Discord client writes an id. */
  function Decimal(n: nat): (s: string)
    ensures s != [] && forall i | 0 <= i < |s| :: IsDigit(s[i])
  {
    if n < 10 then [Digit(n)] else Decimal(n / 10) + [Digit(n % 10)]
  }

  /** `int` reads back the id a mention was written with. */
  lemma {:induction false} DigitsValueDecimal(n: nat)
    ensures DigitsValue(Decimal(n)) == n
  {
    var s := Decimal(n);
    if n < 10 {
      assert s[..0] == [];
    } else {
      assert s[..|s| - 1] == Decimal(n / 10);
      DigitsValueDecimal(n / 10);
    }
  }

  /** Leading zeros do not change the value. */
  lemma {:induction false} DigitsValueLeadingZero(digits: string)
    requires forall i | 0 <= i < |digits| :: IsDigit(digits[i])
    ensures DigitsValue("0" + digits) == DigitsValue(digits)
  {
    if digits != [] {
      var s := "0" + digits;
      assert s[..|s| - 1] == "0" + digits[..|digits| - 1];
      DigitsValueLeadingZero(digits[..|digits| - 1]);
    } else {
      assert ("0" + digits)[..0] == [];
    }
  }

  // ============================================================ resolution

  /** What `append` receives: the word and, for mentions and links, a fill
      colour. */
  datatype Piece = Piece(word: string, colour: Option<string>)

  /** The branch of `transform_token` for a word that matched the pattern:
      user, channel and role mentions become coloured names; anything else
      (a custom emoji `:name:`, or an empty group 1) is written as group 1,
      uncoloured. */
  function ResolveRef(dir: Directory, m: RefMatch): (r: Result<Piece>)
    requires forall i | 0 <= i < |m.digits| :: IsDigit(m.digits[i])
  {
    var id := DigitsValue(m.digits);
    if m.prefix == "@" || m.prefix == "@!" then
      match MemberName(dir, id)
      case Ok(name) => Ok(Piece("@" + name, Some(Link)))
      case Err(e) => Err(e)
    else if m.prefix == "#" then
      match ChannelName(dir, id)
      case Ok(name) => Ok(Piece("#" + name, Some(Link)))
      case Err(e) => Err(e)
    else if m.prefix == "@&amp;" then
      Ok(Piece("@" + RoleName(dir.guildRoles, id), Some(Link)))
    else Ok(Piece(m.prefix, None))
  }

  /** Any word that is not a style delimiter: a mention is resolved, any
      other word is written as it is, coloured when it starts with `http`. */
  function WordPiece(dir: Directory, word: string): Result<Piece> {
    match ParseRef(word)
    case Some(m) =>
      ParseRefSpec(word);
      ResolveRef(dir, m)
    case None => Ok(Piece(word, if StartsWith(word, "http") then Some(Link) else None))
  }

  /** A word that does not start with `&` cannot start `&lt;`. */
  lemma NotAmpNoRef(word: string)
    requires word == [] || word[0] != '&'
    ensures forall p, d :: !IsRefMatch(word, p, d)
  {
    forall p, d
      ensures !IsRefMatch(word, p, d)
    {
      assert (RefOpen + p + d + ">")[0] == '&';
    }
  }

  /** A word that is not a mention is kept verbatim, and is coloured exactly
      when it is a link. */
  lemma PlainWordPiece(dir: Directory, word: string)
    requires forall p, d :: !IsRefMatch(word, p, d)
    ensures WordPiece(dir, word) == Ok(Piece(word, if StartsWith(word, "http") then Some(Link) else None))
    ensures WordPiece(dir, word).value.colour == Some(Link) <==> StartsWith(word, "http")
  {
    ParseRefSpec(word);
  }

  /** A user mention `<@id>` or `<@!id>` renders as `@` and the member's
      display name, coloured, whatever follows its `>`; it fails only when
      no member or user has the id. */
  lemma UserMention(dir: Directory, word: string, bang: bool, id: nat, tail: string)
    requires word == RefOpen + (if bang then "@!" else "@") + Decimal(id) + ">" + tail
    ensures MemberName(dir, id).Ok? ==> WordPiece(dir, word) == Ok(Piece("@" + MemberName(dir, id).value, Some(Link)))
    ensures MemberName(dir, id).Err? ==> WordPiece(dir, word) == Err(UnknownUser(id))
  {
    var p := if bang then "@!" else "@";
    MentionParses(word, p, Decimal(id), tail);
    DigitsValueDecimal(id);
  }

  /** A channel mention `<#id>` renders as `#` and the channel's name. */
  lemma ChannelMention(dir: Directory, word: string, id: nat, tail: string)
    requires word == RefOpen + "#" + Decimal(id) + ">" + tail
    ensures id in dir.channels ==> WordPiece(dir, word) == Ok(Piece("#" + dir.channels[id], Some(Link)))
    ensures id !in dir.channels ==> WordPiece(dir, word) == Err(UnknownChannel(id))
  {
    MentionParses(word, "#", Decimal(id), tail);
    DigitsValueDecimal(id);
  }

  /** A role mention `<@&id>` (its `&` escaped) renders as `@` and the role
      name, or `@invalid-role` when no guild has the role; it never fails. */
  lemma RoleMention(dir: Directory, word: string, id: nat, tail: string)
    requires word == RefOpen + "@&amp;" + Decimal(id) + ">" + tail
    ensures WordPiece(dir, word) == Ok(Piece("@" + RoleName(dir.guildRoles, id), Some(Link)))
    ensures (forall g | 0 <= g < |dir.guildRoles| :: FindRole(dir.guildRoles[g], id).None?) ==>
      WordPiece(dir, word).value.word == "@invalid-role"
  {
    RoleParses(word, id, tail);
    RoleResolves(dir, id);
    InvalidRolePiece(dir.guildRoles, id);
  }

  /** With no guild holding the role, its mention reads `@invalid-role`. */
  lemma InvalidRolePiece(guildRoles: seq<seq<Role>>, id: nat)
    ensures (forall g | 0 <= g < |guildRoles| :: FindRole(guildRoles[g], id).None?) ==>
      "@" + RoleName(guildRoles, id) == "@invalid-role"
  {
    assert "@" + InvalidRole == "@invalid-role";
  }

  lemma RoleParses(word: string, id: nat, tail: string)
    requires word == RefOpen + "@&amp;" + Decimal(id) + ">" + tail
    ensures ParseRef(word) == Some(RefMatch("@&amp;", Decimal(id)))
  {
    MentionParses(word, "@&amp;", Decimal(id), tail);
  }

  lemma RoleResolves(dir: Directory, id: nat)
    ensures ResolveRef(dir, RefMatch("@&amp;", Decimal(id))) == Ok(Piece("@" + RoleName(dir.guildRoles, id), Some(Link)))
  {
    var g := "@&amp;";
    assert g != "@" && g != "@!" && g != "#" by {
      assert |g| == 6;
    }
    DigitsValueDecimal(id);
  }

  /** A custom emoji `<:name:id>` is written as `:name:`, uncoloured, also
      when the name holds digits. */
  lemma EmojiMention(dir: Directory, word: string, name: string, id: nat, tail: string)
    requires '\n' !in name && '>' !in name
    requires word == RefOpen + ":" + name + ":" + Decimal(id) + ">" + tail
    ensures WordPiece(dir, word) == Ok(Piece(":" + name + ":", None))
  {
    var p := ":" + name + ":";
    assert forall c | c in p :: c == ':' || c in name;
    MentionParses(word, p, Decimal(id), tail);
  }

  /** A mention with an empty group 1 (`<123>`) is written as nothing. */
  lemma EmptyGroupOne(dir: Directory, word: string, id: nat, tail: string)
    requires word == RefOpen + Decimal(id) + ">" + tail
    ensures WordPiece(dir, word) == Ok(Piece("", None))
  {
    assert RefOpen + [] == RefOpen;
    MentionParses(word, [], Decimal(id), tail);
  }

  /** Any match whose group 1 is not a user, channel or role sigil is
      written as its group 1, uncoloured: the custom-emoji branch. */
  lemma OtherGroupOne(dir: Directory, word: string)
    requires ParseRef(word).Some?
    requires var g := ParseRef(word).value.prefix; g != "@" && g != "@!" && g != "#" && g != "@&amp;"
    ensures WordPiece(dir, word) == Ok(Piece(ParseRef(word).value.prefix, None))
  {
    ParseRefSpec(word);
  }

  /** A word of the mention shape is matched with exactly that group 1 and
      those digits, as long as group 1 holds no newline and no `>` and does
      not end in a digit: no shorter group 1 can then be followed by digits
      and `>`. */
  lemma MentionParses(word: string, prefix: string, digits: string, tail: string)
    requires '\n' !in prefix && '>' !in prefix && (prefix == [] || !IsDigit(prefix[|prefix| - 1]))
    requires digits != [] && forall i | 0 <= i < |digits| :: IsDigit(digits[i])
    requires word == RefOpen + prefix + digits + ">" + tail
    ensures ParseRef(word) == Some(RefMatch(prefix, digits))
  {
    var whole := RefOpen + prefix + digits + ">";
    assert word[..|whole|] == whole;
    assert IsRefMatch(word, prefix, digits);
    ParseRefSpec(word);
    var m := ParseRef(word).value;
    NoShorterMatch(word, prefix, digits, tail, m.prefix, m.digits);
  }

  /** A match cannot end its group 1 inside `prefix`: its digits and `>`
      would have to cover the last character of `prefix`, or put the `>`
      inside it. */
  lemma NoShorterMatch(word: string, prefix: string, digits: string, tail: string, p: string, d: string)
    requires '>' !in prefix && (prefix == [] || !IsDigit(prefix[|prefix| - 1]))
    requires word == RefOpen + prefix + digits + ">" + tail
    requires IsRefMatch(word, p, d)
    ensures |p| >= |prefix|
  {
    var n := |RefOpen|;
    var m := RefOpen + p + d + ">";
    assert word[..|m|] == m;
    var close := n + |p| + |d|;
    assert word[close] == '>';
    forall j | n <= j < n + |prefix|
      ensures word[j] == prefix[j - n] && word[j] != '>'
    {
      assert prefix[j - n] in prefix;
    }
    assert close >= n + |prefix|;
    forall j | n + |p| <= j < close
      ensures IsDigit(word[j])
    {
      assert word[j] == m[j] == d[j - n - |p|];
    }
    if prefix != [] {
      var last := n + |prefix| - 1;
      assert !IsDigit(word[last]);
      assert !(n + |p| <= last);
    }
  }
}
