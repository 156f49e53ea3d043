/**
 * `get_team_logo_url` (app.py): the badge URL of a team, looked up by display
 * name in a table of team ids, falling back to id "1" (Arsenal) for a name the
 * table does not know.
 */
module Badges {
  import opened Wrappers

  const BadgePrefix: string := "https://resources.premierleague.com/premierleague25/badges/"
  const BadgeSuffix: string := ".svg"
  /** The id used for a name the table does not contain. */
  const DefaultTeamId: string := "1"

  /** `get_team_ids_mapping`: display names, and their common variants, to badge ids. */
  const TeamIds: map<string, string> := map[
    "Arsenal" := "1", "Aston Villa" := "2", "Bournemouth" := "91", "AFC Bournemouth" := "91",
    "Brentford" := "94", "Brighton & Hove Albion" := "36", "Brighton" := "36", "Chelsea" := "4",
    "Crystal Palace" := "31", "Everton" := "7", "Fulham" := "34", "Ipswich Town" := "40",
    "Leicester City" := "13", "Liverpool" := "10", "Manchester City" := "11",
    "Manchester United" := "12", "Newcastle United" := "23", "Nottingham Forest" := "17",
    "Southampton" := "20", "Tottenham Hotspur" := "21", "Tottenham" := "21",
    "West Ham United" := "25", "West Ham" := "25", "Wolverhampton Wanderers" := "38",
    "Wolves" := "38", "Man City" := "11", "Man United" := "12", "Man Utd" := "12", "Spurs" := "21"
  ]

  /** `team_id_map.get(team_name, '1')`; a missing name (`None`) is never a key. */
  function TeamId(name: Option<string>, ids: map<string, string>): (id: string)
    ensures name.Some? && name.value in ids ==> id == ids[name.value]
    ensures (name.None? || name.value !in ids) ==> id == DefaultTeamId
  {
    if name.Some? && name.value in ids then ids[name.value] else DefaultTeamId
  }

  /** `TEAM_LOGO_URL.format(team_id=...)`. */
  function LogoUrl(name: Option<string>, ids: map<string, string>): (url: string)
    ensures |url| == |BadgePrefix| + |TeamId(name, ids)| + |BadgeSuffix|
    ensures url[..|BadgePrefix|] == BadgePrefix
    ensures url[|url| - |BadgeSuffix|..] == BadgeSuffix
  {
    BadgePrefix + TeamId(name, ids) + BadgeSuffix
  }

  /** Reads the team id back out of a badge URL. */
  function BadgeId(url: string): Option<string> {
    if |url| >= |BadgePrefix| + |BadgeSuffix|
       && url[..|BadgePrefix|] == BadgePrefix
       && url[|url| - |BadgeSuffix|..] == BadgeSuffix
    then Some(url[|BadgePrefix|..|url| - |BadgeSuffix|])
    else None
  }

  /** Every badge URL names the id it was built from. */
  lemma BadgeIdOfLogoUrl(name: Option<string>, ids: map<string, string>)
    ensures BadgeId(LogoUrl(name, ids)) == Some(TeamId(name, ids))
  {
    var id := TeamId(name, ids);
    var url := LogoUrl(name, ids);
    assert url[..|BadgePrefix|] == BadgePrefix;
    assert url[|url| - |BadgeSuffix|..] == BadgeSuffix;
    assert url[|BadgePrefix|..|url| - |BadgeSuffix|] == id;
  }

  /** Two teams get the same badge exactly when the table gives them the same id. */
  lemma LogoUrlSameExactlyForSameId(a: Option<string>, b: Option<string>, ids: map<string, string>)
    ensures LogoUrl(a, ids) == LogoUrl(b, ids) <==> TeamId(a, ids) == TeamId(b, ids)
  {
    BadgeIdOfLogoUrl(a, ids);
    BadgeIdOfLogoUrl(b, ids);
  }

  /** The short forms of Bournemouth, Brighton and Wolverhampton have the
   *  badge of the club's full name. */
  lemma ShortNamesShareBadge()
    ensures TeamIds["AFC Bournemouth"] == TeamIds["Bournemouth"]
    ensures TeamIds["Brighton"] == TeamIds["Brighton & Hove Albion"]
    ensures TeamIds["Wolves"] == TeamIds["Wolverhampton Wanderers"]
  {
  }

  /** The London short forms have the badge of the club's full name. */
  lemma LondonShortNamesShareBadge()
    ensures TeamIds["Tottenham"] == TeamIds["Spurs"] == TeamIds["Tottenham Hotspur"]
    ensures TeamIds["West Ham"] == TeamIds["West Ham United"]
  {
  }

  /** The Manchester short forms have their club's badge, and the two clubs'
   *  badges differ. */
  lemma ManchesterShortNamesShareBadge()
    ensures TeamIds["Man City"] == TeamIds["Manchester City"]
    ensures TeamIds["Man United"] == TeamIds["Man Utd"] == TeamIds["Manchester United"]
    ensures TeamIds["Manchester City"] != TeamIds["Manchester United"]
  {
  }

  /** An unknown or missing team name silently gets Arsenal's badge. */
  lemma UnknownTeamShowsArsenalBadge(name: Option<string>)
    requires name.None? || name.value !in TeamIds
    ensures LogoUrl(name, TeamIds) == LogoUrl(Some("Arsenal"), TeamIds)
  {
    assert "Arsenal" in TeamIds && TeamIds["Arsenal"] == DefaultTeamId;
  }
}
