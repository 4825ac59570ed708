/** The bot's configuration and the owner commands that change it: is_owner
    (main.py:150-153), add_owner, remove_owner and list_owners (main.py:155-185)
    and set_embed (main.py:214-238). */
module Settings {
  import opened Wrappers
  import opened Strings
  import opened Collections
  import opened Colour

  /** A value of the [Embed] table: set_embed stores strings, except for
      show_timestamp, which it stores as a boolean. */
  datatype EmbedValue = Text(text: string) | Flag(flag: bool)

  type Section = map<string, EmbedValue>

  /** What a command answers in the channel; Denied is the failed is_owner check,
      after which the command body does not run. */
  datatype Reply =
    | Denied
    | AddedOwner(user: int)
    | AlreadyOwner
    | RemovedOwner(user: int)
    | NotAnOwner
    | OwnerList(owners: seq<int>)
    | NoOwners
    | InvalidSetting
    | InvalidColour
    | EmbedUpdated(setting: string, value: EmbedValue)

  const ValidSettings: seq<string> := ["title", "color", "thumbnail", "footer_text", "show_timestamp"]

  /** The colour of load_config's default [Embed] table (main.py:24). */
  const DefaultColour: string := "0x3498db"

  /** load_config's default [Embed] table (main.py:22-28). */
  const DefaultEmbed: Section := map[
    "title" := Text("New Repository Created!"),
    "color" := Text(DefaultColour),
    "thumbnail" := Text("https://github.githubassets.com/images/modules/logos_page/GitHub-Mark.png"),
    "footer_text" := Text("GitHub Repository Bot"),
    "show_timestamp" := Flag(true)
  ]

  /** The colour the polling loop falls back on when [Embed] has none (main.py:96). */
  const FallbackColour: string := "#3498db"

  /** The value set_embed stores: for show_timestamp, whether the value reads
      "true" in any letter case; for every other setting the value as given. */
  function StoredValue(key: string, value: string): (v: EmbedValue)
    ensures v.Flag? <==> key == "show_timestamp"
    ensures v.Flag? ==> (v.flag <==> Lower(value) == "true")
    ensures v.Text? ==> v.text == value
  {
    if key == "show_timestamp" then Flag(Lower(value) == "true") else Text(value)
  }

  /** set_embed goes on to write exactly when the name is one of the five settings
      and, for the colour, the value passes the colour check. */
  predicate Accepted(key: string, value: string)
  {
    key in ValidSettings && (key == "color" ==> IsValidColour(value))
  }

  /** The answer of set_embed to an owner. */
  function EmbedReply(setting: string, value: string): (r: Reply)
    ensures r == InvalidSetting <==> Lower(setting) !in ValidSettings
    ensures r == InvalidColour <==> Lower(setting) == "color" && !IsValidColour(value)
    ensures r.EmbedUpdated? <==> Accepted(Lower(setting), value)
    ensures r.EmbedUpdated? ==> r == EmbedUpdated(Lower(setting), StoredValue(Lower(setting), value))
  {
    var key := Lower(setting);
    if key !in ValidSettings then InvalidSetting
    else if key == "color" && !IsValidColour(value) then InvalidColour
    else EmbedUpdated(key, StoredValue(key, value))
  }

  /** The [Embed] table after set_embed run by an owner: unchanged when rejected;
      otherwise the one key written, the table created first if it is missing. */
  function EmbedAfter(section: Option<Section>, setting: string, value: string): (r: Option<Section>)
    ensures !Accepted(Lower(setting), value) ==> r == section
    ensures Accepted(Lower(setting), value) ==>
      && r.Some?
      && r.value.Keys == (if section.Some? then section.value.Keys else {}) + {Lower(setting)}
      && r.value[Lower(setting)] == StoredValue(Lower(setting), value)
      && (forall k :: k in r.value && k != Lower(setting) ==>
            section.Some? && k in section.value && r.value[k] == section.value[k])
  {
    var key := Lower(setting);
    if !Accepted(key, value) then section
    else
      var table := if section.Some? then section.value else map[];
      Some(table[key := StoredValue(key, value)])
  }

  /** The colour the polling loop reads from [Embed], with its fallback. */
  function EmbedColour(section: Section): EmbedValue
  {
    if "color" in section then section["color"] else Text(FallbackColour)
  }

  /** hex_to_int succeeds on the colour the polling loop reads from [Embed]. */
  predicate ColourReadable(section: Option<Section>)
  {
    section.Some? && match EmbedColour(section.value)
      case Text(t) => HexToInt(t).Some?
      case Flag(_) => false
  }

  /** The default and fallback colours are both read as 0x3498db. */
  lemma BuiltInColoursDecode()
    ensures HexToInt(DefaultColour) == Some(HexValue(DefaultColour[2..]))
    ensures HexToInt(FallbackColour) == Some(HexValue(DefaultColour[2..]))
  {
    var h := DefaultColour[2..];
    assert DefaultColour == "0x" + h;
    assert FallbackColour == "#" + h;
    PrefixesIgnored(h);
  }

  lemma DefaultColourReadable(section: Section)
    requires "color" in section && section["color"] == Text(DefaultColour)
    ensures ColourReadable(Some(section))
  {
    BuiltInColoursDecode();
  }

  /** set_embed keeps the embed colour readable by hex_to_int: a colour it stores
      passed the colour check, and every other write leaves the colour alone. */
  lemma EmbedAfterKeepsColourReadable(section: Option<Section>, setting: string, value: string)
    requires ColourReadable(section)
    ensures ColourReadable(EmbedAfter(section, setting, value))
  {
    var key := Lower(setting);
    if Accepted(key, value) && key == "color" {
      AcceptedColourDecodes(value);
    }
  }

  /** set_embed looks up its setting regardless of letter case. */
  lemma SettingNameCaseInsensitive(value: string)
    ensures EmbedReply("Title", value) == EmbedUpdated("title", Text(value))
    ensures EmbedReply("colour", value) == InvalidSetting
  {
    var k := Lower("Title");
    assert k[0] == 't' && k[1..] == "itle";
    assert k == "title";
  }

  /** The configuration the commands read and write. */
  class BotConfig {
    /** config["BOT"]["Owner"]: the ids is_owner lets through. */
    var botOwners: seq<int>
    /** config["Server"]["owners"]: the list the owner commands edit; a missing key
        reads as the empty list everywhere. */
    var serverOwners: seq<int>
    /** config["Embed"], None when the file has no such table. */
    var embed: Option<Section>

    /** A configuration as read from the file. */
    constructor (botOwners: seq<int>, serverOwners: seq<int>, embed: Option<Section>)
      ensures this.botOwners == botOwners && this.serverOwners == serverOwners && this.embed == embed
    {
      this.botOwners := botOwners;
      this.serverOwners := serverOwners;
      this.embed := embed;
    }

    /** load_config's fallback when config.toml is missing (main.py:16-29). */
    constructor Default()
      ensures botOwners == [] && serverOwners == []
      ensures embed == Some(DefaultEmbed)
      ensures forall k :: k in ValidSettings ==> k in embed.value
      ensures ColourReadable(embed)
    {
      botOwners := [];
      serverOwners := [];
      DefaultColourReadable(DefaultEmbed);
      embed := Some(DefaultEmbed);
    }

    /** is_owner: the author's id is in BOT.Owner. */
    predicate IsOwner(author: int)
      reads this
    {
      author in botOwners
    }

    /** add_owner: appends the user to Server.owners unless it is there already. */
    method AddOwner(author: int, user: int) returns (reply: Reply)
      modifies this`serverOwners
      ensures reply == if !IsOwner(author) then Denied
                       else if user in old(serverOwners) then AlreadyOwner
                       else AddedOwner(user)
      ensures serverOwners == if reply.AddedOwner? then old(serverOwners) + [user] else old(serverOwners)
      ensures NoDuplicates(old(serverOwners)) ==> NoDuplicates(serverOwners)
      ensures IsOwner(author) ==> user in serverOwners
      ensures IsOwner(user) == old(IsOwner(user))
    {
      if !IsOwner(author) {
        return Denied;
      }
      if user !in serverOwners {
        assert NoDuplicates(serverOwners) ==> NoDuplicates(serverOwners + [user]) by {
          if NoDuplicates(serverOwners) {
            AppendAbsentNoDuplicates(serverOwners, user);
          }
        }
        serverOwners := serverOwners + [user];
        return AddedOwner(user);
      }
      return AlreadyOwner;
    }

    /** remove_owner: removes the user's first occurrence from Server.owners when present. */
    method RemoveOwner(author: int, user: int) returns (reply: Reply)
      modifies this`serverOwners
      ensures reply == if !IsOwner(author) then Denied
                       else if user in old(serverOwners) then RemovedOwner(user)
                       else NotAnOwner
      ensures serverOwners == if reply.RemovedOwner? then RemoveFirst(old(serverOwners), user)
                              else old(serverOwners)
      ensures NoDuplicates(old(serverOwners)) ==> NoDuplicates(serverOwners)
      ensures IsOwner(author) && NoDuplicates(old(serverOwners)) ==> user !in serverOwners
      ensures IsOwner(user) == old(IsOwner(user))
    {
      if !IsOwner(author) {
        return Denied;
      }
      if user in serverOwners {
        assert NoDuplicates(serverOwners) ==>
          NoDuplicates(RemoveFirst(serverOwners, user)) && user !in RemoveFirst(serverOwners, user) by {
          if NoDuplicates(serverOwners) {
            RemoveFirstNoDuplicates(serverOwners, user);
          }
        }
        serverOwners := RemoveFirst(serverOwners, user);
        return RemovedOwner(user);
      }
      return NotAnOwner;
    }

    /** list_owners: the Server.owners list, or the note that it is empty. */
    method ListOwners(author: int) returns (reply: Reply)
      ensures reply == if !IsOwner(author) then Denied
                       else if serverOwners == [] then NoOwners
                       else OwnerList(serverOwners)
    {
      if !IsOwner(author) {
        return Denied;
      }
      if serverOwners == [] {
        return NoOwners;
      }
      return OwnerList(serverOwners);
    }

    /** set_embed: validates the setting and the value, then writes the one key. */
    method SetEmbed(author: int, setting: string, value: string) returns (reply: Reply)
      modifies this`embed
      ensures reply == if IsOwner(author) then EmbedReply(setting, value) else Denied
      ensures embed == if IsOwner(author) then EmbedAfter(old(embed), setting, value) else old(embed)
      ensures old(ColourReadable(embed)) ==> ColourReadable(embed)
    {
      if !IsOwner(author) {
        return Denied;
      }
      var key := Lower(setting);
      if key !in ValidSettings {
        return InvalidSetting;
      }
      if key == "color" && !IsValidColour(value) {
        return InvalidColour;
      }
      var stored := StoredValue(key, value);
      var table := if embed.Some? then embed.value else map[];
      if ColourReadable(embed) {
        EmbedAfterKeepsColourReadable(embed, setting, value);
      }
      embed := Some(table[key := stored]);
      return EmbedUpdated(key, stored);
    }
  }
}
