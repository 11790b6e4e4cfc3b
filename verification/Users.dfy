/** The example session of the repository's README, on the table `users`: what each statement answers, and that the
    engine answers so from an empty table file. */
module Users {
  import opened Text
  import opened Frames
  import opened Log
  import opened Conditions
  import opened Schemas
  import opened Serializer
  import opened Normalizer
  import opened Validator
  import opened Statements
  import opened Runs
  import opened Laws
  import opened Outcomes
  import Like
  import Metadata

  // ---- the table ----

  const COLUMNS: seq<ColumnDef> := [
    ColumnDef("id", ["PRIMARY KEY"]), ColumnDef("name", ["NOT NULL"]), ColumnDef("age", ["NOT NULL", "DEFAULT 18"]),
    ColumnDef("is_premium", ["DEFAULT FALSE"]), ColumnDef("badge_color", ["DEFAULT 'purple'"])]

  function UsersTable(nums: Numbers): Table { Table(COLUMNS, nums) }

  lemma Defaults()
    ensures "DEFAULT " <= "DEFAULT 18" && "DEFAULT " <= "DEFAULT FALSE" && "DEFAULT " <= "DEFAULT 'purple'"
  {
    var a, b, c := "DEFAULT 18", "DEFAULT FALSE", "DEFAULT 'purple'";
    assert a[..8] == "DEFAULT " && b[..8] == "DEFAULT " && c[..8] == "DEFAULT ";
  }

  lemma ColumnsAreGrammatical()
    ensures forall i :: 0 <= i < |COLUMNS| ==> Metadata.GrammaticalModifiers(COLUMNS[i].modifiers)
  {
    Defaults();
  }

  /** Only the first column says PRIMARY KEY. */
  lemma OneKeyColumn()
    ensures forall i :: 0 <= i < |COLUMNS| ==> (Mentions(COLUMNS[i].modifiers, "PRIMARY KEY") <==> i == 0)
    ensures forall i :: 0 <= i < |COLUMNS| ==> (IsKey(COLUMNS[i]) <==> i == 0)
  {
    hide Metadata.HasPiece, Mentions, IsDefault;
    ColumnsAreGrammatical();
    var pk, d1, d2, d3, nn := "PRIMARY KEY", "DEFAULT 18", "DEFAULT FALSE", "DEFAULT 'purple'", "NOT NULL";
    assert pk[0] == 'P' && d1[0] == 'D' && d2[0] == 'D' && d3[0] == 'D' && nn[0] == 'N';
    forall i | 0 <= i < |COLUMNS| ensures Mentions(COLUMNS[i].modifiers, pk) <==> i == 0 {
      Metadata.KeywordsGiven(COLUMNS[i].modifiers, pk);
    }
  }

  lemma UsersIsValid(nums: Numbers)
    ensures UsersTable(nums).KeyFirst() && Mentions(COLUMNS[0].modifiers, "PRIMARY KEY")
  {
    hide IsKey, Mentions;
    OneKeyColumn();
    DifferentNames();
  }

  lemma DifferentNames()
    ensures DistinctNames(COLUMNS)
  {
    assert |COLUMNS[0].name| == 2 && |COLUMNS[1].name| == 4 && |COLUMNS[2].name| == 3;
    assert |COLUMNS[3].name| == 10 && |COLUMNS[4].name| == 11;
  }

  /** The columns that may be left out, and what they hold then. */
  lemma UsersDefaults()
    ensures forall i :: 2 <= i < 5 ==> MayBeEmpty(COLUMNS[i].modifiers)
    ensures DefaultOf(COLUMNS[2].modifiers) == Some("18")
    ensures DefaultOf(COLUMNS[3].modifiers) == Some("FALSE")
    ensures DefaultOf(COLUMNS[4].modifiers) == Some("purple")
  {
    hide MayBeEmpty, DefaultOf, IsDefault, Strip;
    ColumnsAreGrammatical();
    Defaults();
    forall i | 2 <= i < 5 ensures MayBeEmpty(COLUMNS[i].modifiers) {
      MayBeEmptyWords(COLUMNS[i].modifiers);
      var pk, nn := "PRIMARY KEY", "NOT NULL";
      var d1, d2, d3 := "DEFAULT 18", "DEFAULT FALSE", "DEFAULT 'purple'";
      assert pk[0] == 'P' && d1[0] == 'D' && d2[0] == 'D' && d3[0] == 'D' && nn[0] == 'N';
      assert "DEFAULT " <= COLUMNS[i].modifiers[if i == 2 then 1 else 0];
    }
    var e, f, p := "18", "FALSE", "'purple'";
    assert e[|e| - 1] == '8' && f[|f| - 1] == 'E' && p[|p| - 1] == '\'';
    DefaultText(COLUMNS[2].modifiers, 1, e);
    DefaultText(COLUMNS[3].modifiers, 0, f);
    DefaultText(COLUMNS[4].modifiers, 0, p);
    Unquoting();
  }

  lemma UnquoteGeorge()
    ensures Strip("'George'") == "George"
  {
    InQuotes("George");
    assert "'" + "George" + "'" == "'George'";
  }

  lemma UnquoteTim()
    ensures Strip("'Tim'") == "Tim"
  {
    InQuotes("Tim");
    assert "'" + "Tim" + "'" == "'Tim'";
  }

  lemma UnquoteGerald()
    ensures Strip("'Gerald'") == "Gerald"
  {
    InQuotes("Gerald");
    assert "'" + "Gerald" + "'" == "'Gerald'";
  }

  lemma UnquoteHoward()
    ensures Strip("'Howard'") == "Howard"
  {
    InQuotes("Howard");
    assert "'" + "Howard" + "'" == "'Howard'";
  }

  lemma UnquotePurple()
    ensures Strip("'purple'") == "purple"
  {
    InQuotes("purple");
    assert "'" + "purple" + "'" == "'purple'";
  }

  lemma UnquotePattern()
    ensures Strip("'G%'") == "G%"
  {
    InQuotes("G%");
    assert "'" + "G%" + "'" == "'G%'";
  }

  lemma Unquoting()
    ensures Strip("'purple'") == "purple" && Strip("'George'") == "George" && Strip("'Tim'") == "Tim"
    ensures Strip("'Gerald'") == "Gerald" && Strip("'Howard'") == "Howard" && Strip("'G%'") == "G%"
  {
    hide Strip;
    UnquotePurple();
    UnquoteGeorge();
    UnquoteTim();
    UnquoteGerald();
    UnquoteHoward();
    UnquotePattern();
  }

  /** A text that does not start with a quote is left alone. */
  lemma Bare(text: string)
    requires text == [] || (text[0] != '\'' && text[0] != '"')
    ensures Strip(text) == text
  {
  }

  lemma BareNumbers()
    ensures Strip("18") == "18" && Strip("43") == "43" && Strip("20") == "20" && Strip("23") == "23"
    ensures Strip("1") == "1" && Strip("2") == "2" && Strip("3") == "3"
  {
    hide Strip;
    Bare("18");
    Bare("43");
    Bare("20");
    Bare("23");
    Bare("1");
    Bare("2");
    Bare("3");
  }

  lemma BareWords()
    ensures Strip("TRUE") == "TRUE" && Strip("FALSE") == "FALSE" && Strip("purple") == "purple"
    ensures Strip("George") == "George" && Strip("Tim") == "Tim" && Strip("Gerald") == "Gerald" && Strip("Howard") == "Howard"
  {
    hide Strip;
    Bare("TRUE");
    Bare("FALSE");
    Bare("purple");
    Bare("George");
    Bare("Tim");
    Bare("Gerald");
    Bare("Howard");
  }

  // ---- INSERT ----

  function Num(s: string): LiteralNode { LiteralNode(Number, s) }
  function Quote(s: string): LiteralNode { LiteralNode(Str, s) }
  const TRUE_LITERAL: LiteralNode := LiteralNode(TrueVal, "TRUE")

  const THREE_NAMES: seq<string> := ["id", "name", "is_premium"]
  const TWO_USERS: seq<seq<LiteralNode>> := [[Num("1"), Quote("'George'"), TRUE_LITERAL], [Num("2"), Quote("'Tim'"), TRUE_LITERAL]]
  const ONE_USER: seq<seq<LiteralNode>> := [[Num("3"), Quote("'Gerald'"), Num("43")]]

  const GEORGE: Row := ["1", "George", "18", "TRUE", "purple"]
  const TIM: Row := ["2", "Tim", "18", "TRUE", "purple"]
  const GERALD: Row := ["3", "Gerald", "43", "FALSE", "purple"]

  /** Which columns the two statements give. */
  lemma GivenUsers(r: nat)
    requires r < 2
    ensures GivenAs(THREE_NAMES, TWO_USERS[r], "id", TWO_USERS[r][0])
    ensures GivenAs(THREE_NAMES, TWO_USERS[r], "name", TWO_USERS[r][1])
    ensures GivenAs(THREE_NAMES, TWO_USERS[r], "is_premium", TWO_USERS[r][2])
    ensures !Given(THREE_NAMES, TWO_USERS[r], "age") && !Given(THREE_NAMES, TWO_USERS[r], "badge_color")
  {
    NameLengths();
    assert LastNamed(THREE_NAMES, "id", 0) && LastNamed(THREE_NAMES, "name", 1) && LastNamed(THREE_NAMES, "is_premium", 2);
  }

  lemma NameLengths()
    ensures |"id"| == 2 && |"name"| == 4 && |"age"| == 3 && |"is_premium"| == 10 && |"badge_color"| == 11
  {
  }

  lemma OnlyOneLiteral(list: seq<string>, row: seq<LiteralNode>, name: string, a: LiteralNode, b: LiteralNode)
    requires GivenAs(list, row, name, a) && GivenAs(list, row, name, b)
    ensures a == b && Given(list, row, name)
  {
  }

  lemma TwoUsersComplete(r: nat, i: nat)
    requires r < 2 && i < 5 && !Given(THREE_NAMES, TWO_USERS[r], COLUMNS[i].name)
    ensures MayBeEmpty(COLUMNS[i].modifiers)
  {
    hide Given, GivenAs, MayBeEmpty, DefaultOf;
    UsersDefaults();
    GivenUsers(r);
    OnlyOneLiteral(THREE_NAMES, TWO_USERS[r], "id", TWO_USERS[r][0], TWO_USERS[r][0]);
    OnlyOneLiteral(THREE_NAMES, TWO_USERS[r], "name", TWO_USERS[r][1], TWO_USERS[r][1]);
  }

  lemma TwoUsersFresh()
    ensures KeysAreFresh(THREE_NAMES, TWO_USERS, "id", {})
  {
    hide Given, GivenAs;
    GivenUsers(0);
    GivenUsers(1);
    var one, two := "1", "2";
    assert one[0] != two[0];
    forall a, b | GivenAs(THREE_NAMES, TWO_USERS[0], "id", a) && GivenAs(THREE_NAMES, TWO_USERS[1], "id", b)
      ensures a.value != b.value
    {
      OnlyOneLiteral(THREE_NAMES, TWO_USERS[0], "id", a, TWO_USERS[0][0]);
      OnlyOneLiteral(THREE_NAMES, TWO_USERS[1], "id", b, TWO_USERS[1][0]);
    }
  }

  lemma ColumnIsNamed(t: Table, i: nat)
    requires i < |t.cols|
    ensures Named(t, t.cols[i].name)
  {
  }

  lemma TwoUsersInsertable(t: Table)
    requires t == UsersTable(t.nums)
    ensures Insertable(t, 0, {}, Some(THREE_NAMES), TWO_USERS)
  {
    hide Given, GivenAs, MayBeEmpty, KeysAreFresh, Named;
    ColumnIsNamed(t, 0);
    ColumnIsNamed(t, 1);
    ColumnIsNamed(t, 3);
    TwoUsersFresh();
    forall r, i | 0 <= r < 2 && 0 <= i < 5 && !Given(THREE_NAMES, TWO_USERS[r], t.cols[i].name)
      ensures MayBeEmpty(t.cols[i].modifiers)
    {
      TwoUsersComplete(r, i);
    }
  }

  /** INSERT INTO users(id, name, is_premium) VALUES (1, 'George', TRUE), (2, 'Tim', TRUE). */
  lemma InsertTwoUsers(t: Table)
    requires t == UsersTable(t.nums) && t.KeyFirst()
    ensures TableStep(t, [], Insert(Some(THREE_NAMES), TWO_USERS)) == ([GEORGE, TIM], Done)
  {
    hide Given, GivenAs, Insertable, PlanInsert, Strip, DefaultOf, IsKey, KeyIndex;
    PlanTwoUsers(t);
    assert KeysOf([]) == {} && [] + [GEORGE, TIM] == [GEORGE, TIM];
  }

  lemma PlanTwoUsers(t: Table)
    requires t == UsersTable(t.nums) && t.KeyFirst()
    ensures PlanInsert(t, {}, Some(THREE_NAMES), TWO_USERS) == Store([GEORGE, TIM], true)
  {
    hide Given, GivenAs, Insertable, PlanInsert, Strip, DefaultOf, IsKey, KeyIndex, Mentions, MayBeEmpty;
    TwoUsersInsertable(t);
    UsersIsValid(t.nums);
    InsertAccepts(t, 0, {}, Some(THREE_NAMES), TWO_USERS);
    forall r | 0 <= r < 2 ensures Given(THREE_NAMES, TWO_USERS[r], "name") {
      GivenUsers(r);
      OnlyOneLiteral(THREE_NAMES, TWO_USERS[r], "name", TWO_USERS[r][1], TWO_USERS[r][1]);
    }
    CompleteUsers(t, {}, Some(THREE_NAMES), TWO_USERS);
    var stored := PlanInsert(t, {}, Some(THREE_NAMES), TWO_USERS).stored;
    StoredTwoUsers(t, 0);
    StoredTwoUsers(t, 1);
    assert stored == [GEORGE, TIM];
  }

  lemma StoredTwoUsers(t: Table, r: nat)
    requires t == UsersTable(t.nums) && t.KeyFirst() && r < 2
    requires var plan := PlanInsert(t, {}, Some(THREE_NAMES), TWO_USERS); plan.Store? && |plan.stored| == 2
    ensures PlanInsert(t, {}, Some(THREE_NAMES), TWO_USERS).stored[r] == [GEORGE, TIM][r]
  {
    hide Given, GivenAs, PlanInsert, Strip, DefaultOf, IsKey, KeyIndex, MayBeEmpty;
    UsersDefaults();
    Unquoting();
    BareNumbers();
    BareWords();
    GivenUsers(r);
    StoredUser(t, {}, Some(THREE_NAMES), TWO_USERS, r);
    var row := PlanInsert(t, {}, Some(THREE_NAMES), TWO_USERS).stored[r];
    assert row[0] == Strip(TWO_USERS[r][0].value) && row[1] == Strip(TWO_USERS[r][1].value);
    assert row[3] == Strip(TWO_USERS[r][2].value);
    assert Some(row[2]) == Some("18") && Some(row[4]) == Some("purple");
  }

  /** Where id and name are given and the defaults can be read, all rows are stored. */
  lemma CompleteUsers(t: Table, taken: set<string>, columns: Option<seq<string>>, given: seq<seq<LiteralNode>>)
    requires t == UsersTable(t.nums) && t.KeyFirst() && PlanInsert(t, taken, columns, given).Store?
    requires forall r :: 0 <= r < |given| ==> Given(Listed(t, columns), given[r], "name")
    ensures PlanInsert(t, taken, columns, given).complete && |PlanInsert(t, taken, columns, given).stored| == |given|
  {
    hide Given, DefaultOf, StoredPrefix, InsertNormalizes, InsertValid;
    UsersDefaults();
    CompleteInsert(t, taken, columns, given);
  }

  /** The five values of a stored row. */
  lemma StoredUser(t: Table, taken: set<string>, columns: Option<seq<string>>, given: seq<seq<LiteralNode>>, r: nat)
    requires t == UsersTable(t.nums) && t.KeyFirst() && PlanInsert(t, taken, columns, given).Store?
    requires r < |PlanInsert(t, taken, columns, given).stored|
    ensures var list, row := Listed(t, columns), PlanInsert(t, taken, columns, given).stored[r];
            && |row| == 5
            && forall i :: 0 <= i < 5 ==>
                 && (forall literal :: GivenAs(list, given[r], COLUMNS[i].name, literal) ==> row[i] == Strip(literal.value))
                 && (!Given(list, given[r], COLUMNS[i].name) ==> DefaultOf(COLUMNS[i].modifiers) == Some(row[i]))
  {
    hide Given, GivenAs, DefaultOf, PlanInsert, Strip;
    UsersIsValid(t.nums);
    forall i | 0 <= i < 5
      ensures var list, row := Listed(t, columns), PlanInsert(t, taken, columns, given).stored[r];
              && (forall literal :: GivenAs(list, given[r], COLUMNS[i].name, literal) ==> row[i] == Strip(literal.value))
              && (!Given(list, given[r], COLUMNS[i].name) ==> DefaultOf(COLUMNS[i].modifiers) == Some(row[i]))
    {
      InsertStores(t, 0, taken, columns, given, r, i);
    }
  }

  const NAMES: seq<string> := ["id", "name", "age", "is_premium", "badge_color"]

  lemma UserNames(t: Table)
    requires t == UsersTable(t.nums)
    ensures t.Names() == NAMES
  {
  }

  lemma GivenUser()
    ensures GivenAs(NAMES, ONE_USER[0], "id", ONE_USER[0][0])
    ensures GivenAs(NAMES, ONE_USER[0], "name", ONE_USER[0][1])
    ensures GivenAs(NAMES, ONE_USER[0], "age", ONE_USER[0][2])
    ensures !Given(NAMES, ONE_USER[0], "is_premium") && !Given(NAMES, ONE_USER[0], "badge_color")
  {
    NameLengths();
    assert LastNamed(NAMES, "id", 0) && LastNamed(NAMES, "name", 1) && LastNamed(NAMES, "age", 2);
  }

  lemma OneUserFresh()
    ensures KeysAreFresh(NAMES, ONE_USER, "id", {"1", "2"})
  {
    hide Given, GivenAs;
    GivenUser();
    var one, two, three := "1", "2", "3";
    assert one[0] != three[0] && two[0] != three[0];
    forall literal | GivenAs(NAMES, ONE_USER[0], "id", literal) ensures literal.value !in {"1", "2"} {
      OnlyOneLiteral(NAMES, ONE_USER[0], "id", literal, ONE_USER[0][0]);
    }
  }

  lemma OneUserComplete(i: nat)
    requires i < 5 && !Given(NAMES, ONE_USER[0], COLUMNS[i].name)
    ensures MayBeEmpty(COLUMNS[i].modifiers)
  {
    hide Given, GivenAs, MayBeEmpty, DefaultOf;
    UsersDefaults();
    GivenUser();
    OnlyOneLiteral(NAMES, ONE_USER[0], "id", ONE_USER[0][0], ONE_USER[0][0]);
    OnlyOneLiteral(NAMES, ONE_USER[0], "name", ONE_USER[0][1], ONE_USER[0][1]);
  }

  lemma OneUserInsertable(t: Table)
    requires t == UsersTable(t.nums)
    ensures Insertable(t, 0, {"1", "2"}, None, ONE_USER)
  {
    hide Given, GivenAs, MayBeEmpty, KeysAreFresh, Named;
    UserNames(t);
    OneUserFresh();
    forall r, i | 0 <= r < 1 && 0 <= i < 5 && !Given(NAMES, ONE_USER[r], t.cols[i].name)
      ensures MayBeEmpty(t.cols[i].modifiers)
    {
      OneUserComplete(i);
    }
  }

  /** INSERT INTO users VALUES (3, 'Gerald', 43). */
  lemma InsertOneUser(t: Table)
    requires t == UsersTable(t.nums) && t.KeyFirst()
    ensures TableStep(t, [GEORGE, TIM], Insert(None, ONE_USER)) == ([GEORGE, TIM, GERALD], Done)
  {
    hide Given, GivenAs, Insertable, PlanInsert, Strip, DefaultOf, IsKey, KeyIndex;
    PlanOneUser(t);
    var rows := [GEORGE, TIM];
    assert rows[0][0] == "1" && rows[1][0] == "2";
    assert KeysOf(rows) == {"1", "2"};
    assert rows + [GERALD] == [GEORGE, TIM, GERALD];
  }

  lemma PlanOneUser(t: Table)
    requires t == UsersTable(t.nums) && t.KeyFirst()
    ensures PlanInsert(t, {"1", "2"}, None, ONE_USER) == Store([GERALD], true)
  {
    hide Given, GivenAs, Insertable, PlanInsert, Strip, DefaultOf, IsKey, KeyIndex, Mentions, MayBeEmpty;
    UserNames(t);
    OneUserInsertable(t);
    UsersIsValid(t.nums);
    InsertAccepts(t, 0, {"1", "2"}, None, ONE_USER);
    GivenUser();
    OnlyOneLiteral(NAMES, ONE_USER[0], "name", ONE_USER[0][1], ONE_USER[0][1]);
    CompleteUsers(t, {"1", "2"}, None, ONE_USER);
    UsersDefaults();
    Unquoting();
    BareNumbers();
    StoredUser(t, {"1", "2"}, None, ONE_USER, 0);
    var row := PlanInsert(t, {"1", "2"}, None, ONE_USER).stored[0];
    assert row[0] == Strip(ONE_USER[0][0].value) && row[1] == Strip(ONE_USER[0][1].value);
    assert row[2] == Strip(ONE_USER[0][2].value);
    assert Some(row[3]) == Some("FALSE") && Some(row[4]) == Some("purple");
    assert row == GERALD;
  }

  // ---- SELECT ----

  /** What is assumed of the C library: it reads these numbers, and takes no name for one. */
  predicate ReadsNumbers(nums: Numbers) {
    && nums.read("18") == Some(Finite(18.0)) && nums.read("20") == Some(Finite(20.0)) && nums.read("43") == Some(Finite(43.0))
    && nums.read("George").None? && nums.read("Tim").None? && nums.read("Gerald").None?
  }

  /** The rows of a table of three, one by one. */
  lemma ThreeRows(nums: Numbers, a: Row, b: Row, c: Row, i: nat, cmp: Comparator, text: string, want: bool)
    ensures RowsWhere(nums, [a, b, c], i, cmp, text, want) ==
            (if RowMeets(nums, a, i, cmp, text) == want then [a] else []) +
            (if RowMeets(nums, b, i, cmp, text) == want then [b] else []) +
            (if RowMeets(nums, c, i, cmp, text) == want then [c] else [])
  {
    hide RowMeets;
    var rows := [a, b, c];
    assert rows[1..] == [b, c] && rows[1..][1..] == [c] && rows[1..][1..][1..] == [];
    var x := if RowMeets(nums, a, i, cmp, text) == want then [a] else [];
    var y := if RowMeets(nums, b, i, cmp, text) == want then [b] else [];
    var z := if RowMeets(nums, c, i, cmp, text) == want then [c] else [];
    assert RowsWhere(nums, [c], i, cmp, text, want) == z + [] && z + [] == z;
    assert RowsWhere(nums, [b, c], i, cmp, text, want) == y + z;
    assert x + (y + z) == x + y + z;
  }

  const LIKE_G: Where := Some(Condition("name", Comparator.Like, Quote("'G%'"), 0))

  lemma StartsWithG(name: string, rest: string)
    requires name == "G" + rest
    ensures Like.Like("G%", name)
  {
    var pattern, g := "G%", "G";
    Like.PercentMatchesAll(rest);
    assert pattern[0] == 'G' && pattern[1..] == "%" && g[0] == 'G';
    assert name[0] == 'G' && name[1..] == rest;
  }

  lemma DoesNotStartWithG(name: string)
    requires name != "" && name[0] != 'G'
    ensures !Like.Like("G%", name)
  {
    var pattern := "G%";
    assert pattern[0] == 'G';
  }

  lemma LikeG(nums: Numbers)
    requires ReadsNumbers(nums)
    ensures Meets(nums, "George", Comparator.Like, "G%") && Meets(nums, "Gerald", Comparator.Like, "G%")
    ensures !Meets(nums, "Tim", Comparator.Like, "G%")
  {
    hide Like.Like;
    var a, b, c, d, e, f := "George", "Gerald", "Tim", "NULL", "TRUE", "FALSE";
    assert a == "G" + "eorge" && b == "G" + "erald";
    StartsWithG(a, "eorge");
    StartsWithG(b, "erald");
    assert a[0] == 'G' && b[0] == 'G' && c[0] == 'T' && d[0] == 'N' && e[0] == 'T' && f[0] == 'F' && |c| == 3 && |e| == 4;
    DoesNotStartWithG(c);
  }

  lemma OneLineNames()
    ensures Like.OneLine("George") && Like.OneLine("Tim") && Like.OneLine("Gerald")
  {
    var a, b, c := "George", "Gerald", "Tim";
    assert |a| == 6 && |b| == 6 && |c| == 3;
  }

  /** SELECT * FROM users WHERE name LIKE 'G%'. */
  lemma SelectLikeG(t: Table)
    requires t == UsersTable(t.nums) && t.KeyFirst() && ReadsNumbers(t.nums)
    ensures TableStep(t, [GEORGE, TIM, GERALD], Select(None, LIKE_G)) == ([GEORGE, TIM, GERALD], Result([GEORGE, GERALD]))
  {
    hide TableSelect, Meets, RowsWhere, Chosen, IsKey, KeyIndex, Strip, ReadsNumbers, Like.OneLine;
    var rows := [GEORGE, TIM, GERALD];
    LikeG(t.nums);
    OneLineNames();
    UnquotePattern();
    ColumnIsNamed(t, 1);
    assert RowsShaped(t.Layout(), rows);
    SelectAccepts(t, rows, None, LIKE_G);
    SelectAnswers(t, rows, None, LIKE_G, 1);
    ThreeRows(t.nums, GEORGE, TIM, GERALD, 1, Comparator.Like, "G%", true);
    assert RowsWhere(t.nums, rows, 1, Comparator.Like, "G%", true) == [GEORGE, GERALD];
    AllOfThem(t, [GEORGE, GERALD]);
  }

  const NAME_AND_PREMIUM: seq<string> := ["name", "is_premium"]

  lemma ChosenUser(row: Row)
    requires |row| == 5
    ensures Chosen(COLUMNS, NAME_AND_PREMIUM, row) == [row[1], row[3]]
  {
    hide Chosen;
    PremiumColumns();
    ChosenFive(COLUMNS, NAME_AND_PREMIUM, row);
  }

  lemma PremiumColumns()
    ensures COLUMNS[0].name !in NAME_AND_PREMIUM && COLUMNS[1].name in NAME_AND_PREMIUM
    ensures COLUMNS[2].name !in NAME_AND_PREMIUM && COLUMNS[3].name in NAME_AND_PREMIUM
    ensures COLUMNS[4].name !in NAME_AND_PREMIUM
  {
    NameLengths();
  }

  lemma ChosenFive(c: seq<ColumnDef>, list: seq<string>, row: Row)
    requires |row| == |c| == 5
    ensures Chosen(c, list, row) ==
            (if c[0].name in list then [row[0]] else []) + (if c[1].name in list then [row[1]] else []) +
            (if c[2].name in list then [row[2]] else []) + (if c[3].name in list then [row[3]] else []) +
            (if c[4].name in list then [row[4]] else [])
  {
    hide Chosen;
    ChosenNone(list);
    assert c[..0] == [] && row[..0] == [];
    ChosenNext(c[..0], c[0], list, row[..0], row[0]);
    assert c[..0] + [c[0]] == c[..1] && row[..0] + [row[0]] == row[..1];
    ChosenNext(c[..1], c[1], list, row[..1], row[1]);
    assert c[..1] + [c[1]] == c[..2] && row[..1] + [row[1]] == row[..2];
    ChosenNext(c[..2], c[2], list, row[..2], row[2]);
    assert c[..2] + [c[2]] == c[..3] && row[..2] + [row[2]] == row[..3];
    ChosenNext(c[..3], c[3], list, row[..3], row[3]);
    assert c[..3] + [c[3]] == c[..4] && row[..3] + [row[3]] == row[..4];
    ChosenNext(c[..4], c[4], list, row[..4], row[4]);
    assert c[..4] + [c[4]] == c && row[..4] + [row[4]] == row;
  }

  lemma ChosenNone(list: seq<string>) ensures Chosen([], list, []) == [] {}

  lemma ChosenNext(cols: seq<ColumnDef>, c: ColumnDef, list: seq<string>, row: Row, v: string)
    requires |row| == |cols|
    ensures Chosen(cols + [c], list, row + [v]) == Chosen(cols, list, row) + if c.name in list then [v] else []
  {
    assert (cols + [c])[..|cols|] == cols && (row + [v])[..|row|] == row;
  }

  /** SELECT name, is_premium FROM users. */
  lemma SelectTwoColumns(t: Table)
    requires t == UsersTable(t.nums) && t.KeyFirst()
    ensures TableStep(t, [GEORGE, TIM, GERALD], Select(Some(NAME_AND_PREMIUM), None)) ==
            ([GEORGE, TIM, GERALD], Result([["George", "TRUE"], ["Tim", "TRUE"], ["Gerald", "FALSE"]]))
  {
    hide TableSelect, Chosen, IsKey, KeyIndex;
    var rows := [GEORGE, TIM, GERALD];
    ColumnIsNamed(t, 1);
    ColumnIsNamed(t, 3);
    assert RowsShaped(t.Layout(), rows);
    SelectAnswersAll(t, rows, Some(NAME_AND_PREMIUM));
    ChosenUser(GEORGE);
    ChosenUser(TIM);
    ChosenUser(GERALD);
    assert AllChosen(t.cols, NAME_AND_PREMIUM, rows) == [["George", "TRUE"], ["Tim", "TRUE"], ["Gerald", "FALSE"]];
  }

  // ---- UPDATE ----

  /** The values of a row of which one column is assigned to. */
  lemma NewUser(row: Row, a: Assignment, i: nat, r: Row)
    requires |row| == |r| == 5 && i < 5 && a.column == COLUMNS[i].name
    requires forall k :: 0 <= k < 5 ==> r[k] == Strip(if k == i then Strip(a.literal.value) else row[k])
    ensures NewRow(COLUMNS, [a], row) == r
  {
    hide Strip;
    DifferentNames();
    forall k | 0 <= k < 5 ensures NewRow(COLUMNS, [a], row)[k] == r[k] {
      OneValue([a], COLUMNS[k].name, row[k]);
    }
  }

  lemma OneAssignable(t: Table, a: Assignment, i: nat)
    requires t == UsersTable(t.nums) && t.KeyFirst() && 0 < i < 5 && a.column == COLUMNS[i].name
    ensures Assignable(t, [a])
  {
    DifferentNames();
    ColumnIsNamed(t, i);
  }

  const NOT_PREMIUM: Assignment := Assignment("is_premium", LiteralNode(FalseVal, "FALSE"))
  const HOWARD: Assignment := Assignment("name", Quote("'Howard'"))
  const AGE_23: Assignment := Assignment("age", Num("23"))
  const ID_1: Where := Some(Condition("id", Eq, Num("1"), 0))
  const ID_2: Where := Some(Condition("id", Eq, Num("2"), 0))
  const OVER_20: Where := Some(Condition("age", Gt, Num("20"), 0))

  const GEORGE_2: Row := ["1", "George", "18", "FALSE", "purple"]
  const HOWARD_3: Row := ["3", "Howard", "43", "FALSE", "purple"]

  /** UPDATE users SET is_premium = FALSE WHERE id = 1. */
  lemma UpdatePremium(t: Table)
    requires t == UsersTable(t.nums) && t.KeyFirst()
    ensures TableStep(t, [GEORGE, TIM, GERALD], Update([NOT_PREMIUM], ID_1)) == ([TIM, GERALD, GEORGE_2], Done)
  {
    hide TableUpdate, RowsWhere, NewRow, IsKey, KeyIndex, Strip;
    var rows := [GEORGE, TIM, GERALD];
    BareNumbers();
    BareWords();
    var one, two, three := "1", "2", "3";
    assert one[0] != two[0] && one[0] != three[0];
    ColumnIsNamed(t, 0);
    OneAssignable(t, NOT_PREMIUM, 3);
    assert RowsShaped(t.Layout(), rows);
    UpdateAccepts(t, rows, [NOT_PREMIUM], ID_1);
    UpdateLeaves(t, rows, [NOT_PREMIUM], ID_1, 0);
    ThreeRows(t.nums, GEORGE, TIM, GERALD, 0, Eq, one, true);
    ThreeRows(t.nums, GEORGE, TIM, GERALD, 0, Eq, one, false);
    assert RowsWhere(t.nums, rows, 0, Eq, one, true) == [GEORGE] && RowsWhere(t.nums, rows, 0, Eq, one, false) == [TIM, GERALD];
    NewUser(GEORGE, NOT_PREMIUM, 3, GEORGE_2);
    assert NewRows(COLUMNS, [NOT_PREMIUM], [GEORGE]) == [GEORGE_2];
    assert [TIM, GERALD] + [GEORGE_2] == [TIM, GERALD, GEORGE_2];
  }

  lemma AgesOver20(nums: Numbers)
    requires ReadsNumbers(nums)
    ensures Meets(nums, "43", Gt, "20") && !Meets(nums, "18", Gt, "20")
  {
    var a, b, c, d, e, f := "43", "20", "18", "NULL", "TRUE", "FALSE";
    assert |a| == 2 && |b| == 2 && |c| == 2 && |d| == 4 && |e| == 4 && |f| == 5;
  }

  /** UPDATE users SET name = 'Howard' WHERE age > 20. */
  lemma UpdateOver20(t: Table)
    requires t == UsersTable(t.nums) && t.KeyFirst() && ReadsNumbers(t.nums)
    ensures TableStep(t, [TIM, GERALD, GEORGE_2], Update([HOWARD], OVER_20)) == ([TIM, GEORGE_2, HOWARD_3], Done)
  {
    hide TableUpdate, RowsWhere, NewRow, IsKey, KeyIndex, Strip, Meets, ReadsNumbers;
    var rows := [TIM, GERALD, GEORGE_2];
    BareNumbers();
    BareWords();
    Unquoting();
    AgesOver20(t.nums);
    ColumnIsNamed(t, 2);
    OneAssignable(t, HOWARD, 1);
    assert RowsShaped(t.Layout(), rows);
    UpdateAccepts(t, rows, [HOWARD], OVER_20);
    UpdateLeaves(t, rows, [HOWARD], OVER_20, 2);
    ThreeRows(t.nums, TIM, GERALD, GEORGE_2, 2, Gt, "20", true);
    ThreeRows(t.nums, TIM, GERALD, GEORGE_2, 2, Gt, "20", false);
    assert RowsWhere(t.nums, rows, 2, Gt, "20", true) == [GERALD];
    assert RowsWhere(t.nums, rows, 2, Gt, "20", false) == [TIM, GEORGE_2];
    NewUser(GERALD, HOWARD, 1, HOWARD_3);
    assert NewRows(COLUMNS, [HOWARD], [GERALD]) == [HOWARD_3];
    assert [TIM, GEORGE_2] + [HOWARD_3] == [TIM, GEORGE_2, HOWARD_3];
  }

  const TIM_23: Row := ["2", "Tim", "23", "TRUE", "purple"]
  const GEORGE_23: Row := ["1", "George", "23", "FALSE", "purple"]
  const HOWARD_23: Row := ["3", "Howard", "23", "FALSE", "purple"]

  /** UPDATE users SET age = 23. */
  lemma UpdateAges(t: Table)
    requires t == UsersTable(t.nums) && t.KeyFirst()
    ensures TableStep(t, [TIM, GEORGE_2, HOWARD_3], Update([AGE_23], None)) == ([TIM_23, GEORGE_23, HOWARD_23], Done)
  {
    hide TableUpdate, NewRow, IsKey, KeyIndex, Strip;
    var rows := [TIM, GEORGE_2, HOWARD_3];
    BareNumbers();
    BareWords();
    OneAssignable(t, AGE_23, 2);
    assert RowsShaped(t.Layout(), rows);
    UpdateAccepts(t, rows, [AGE_23], None);
    UpdateLeavesAll(t, rows, [AGE_23]);
    NewUser(TIM, AGE_23, 2, TIM_23);
    NewUser(GEORGE_2, AGE_23, 2, GEORGE_23);
    NewUser(HOWARD_3, AGE_23, 2, HOWARD_23);
    assert NewRows(COLUMNS, [AGE_23], rows) == [TIM_23, GEORGE_23, HOWARD_23];
  }

  // ---- DELETE ----

  /** DELETE FROM users WHERE id = 2. */
  lemma DeleteTim(t: Table)
    requires t == UsersTable(t.nums) && t.KeyFirst()
    ensures TableStep(t, [TIM_23, GEORGE_23, HOWARD_23], Delete(ID_2)) == ([GEORGE_23, HOWARD_23], Done)
  {
    hide TableDelete, RowsWhere, IsKey, KeyIndex, Strip;
    var rows := [TIM_23, GEORGE_23, HOWARD_23];
    BareNumbers();
    var one, two, three := "1", "2", "3";
    assert two[0] != one[0] && two[0] != three[0];
    ColumnIsNamed(t, 0);
    assert RowsShaped(t.Layout(), rows);
    assert rows[0][0] == two;
    assert Keyed(rows, two);
    DeleteAccepts(t, rows, ID_2);
    DeleteLeaves(t, rows, ID_2, 0);
    ThreeRows(t.nums, TIM_23, GEORGE_23, HOWARD_23, 0, Eq, two, false);
    assert RowsWhere(t.nums, rows, 0, Eq, two, false) == [GEORGE_23, HOWARD_23];
  }

  // ---- the session ----

  const SESSION: seq<Stmt> := [
    Insert(Some(THREE_NAMES), TWO_USERS), Insert(None, ONE_USER), Select(None, LIKE_G), Select(Some(NAME_AND_PREMIUM), None),
    Update([NOT_PREMIUM], ID_1), Update([HOWARD], OVER_20), Update([AGE_23], None), Delete(ID_2), Delete(None),
    Select(None, None)]

  const NAMES_ANSWER: seq<Row> := [["George", "TRUE"], ["Tim", "TRUE"], ["Gerald", "FALSE"]]

  const ANSWERS: seq<Outcome> := [
    Done, Done, Result([GEORGE, GERALD]), Result(NAMES_ANSWER), Done, Done, Done, Done, Done, Result([])]

  /** A run on the plain table that gives these answers, and whose keys are distinct before each statement. */
  predicate Answers(t: Table, rows: seq<Row>, stmts: seq<Stmt>, outs: seq<Outcome>)
    requires t.KeyFirst()
  {
    RowsShaped(t.Layout(), rows) && TableRun(t, rows, stmts).1 == outs && KeysStayDistinct(t, rows, stmts)
  }

  lemma AnswersNext(t: Table, rows: seq<Row>, stmt: Stmt, rows': seq<Row>, out: Outcome, stmts: seq<Stmt>, outs: seq<Outcome>)
    requires t.KeyFirst() && RowsShaped(t.Layout(), rows) && DistinctKeys(rows)
    requires TableStep(t, rows, stmt) == (rows', out) && Answers(t, rows', stmts, outs)
    ensures Answers(t, rows, [stmt] + stmts, [out] + outs)
  {
    hide TableStep, DistinctKeys;
    assert ([stmt] + stmts)[1..] == stmts;
  }

  /** Keys that differ in their first characters. */
  lemma UsersKeys(t: Table, rows: seq<Row>)
    requires t == UsersTable(t.nums) && t.KeyFirst() && forall r :: 0 <= r < |rows| ==> |rows[r]| == 5 && |rows[r][0]| == 1
    requires forall i, j :: 0 <= i < j < |rows| ==> rows[i][0][0] != rows[j][0][0]
    ensures RowsShaped(t.Layout(), rows) && DistinctKeys(rows)
  {
  }

  lemma EmptyEnd(t: Table)
    requires t == UsersTable(t.nums) && t.KeyFirst()
    ensures Answers(t, [], [Delete(None), Select(None, None)][1..], [Result([])])
    ensures Answers(t, [GEORGE_23, HOWARD_23], [Delete(None), Select(None, None)], [Done, Result([])])
  {
    hide TableStep, DistinctKeys, IsKey, KeyIndex;
    UsersKeys(t, []);
    UsersKeys(t, [GEORGE_23, HOWARD_23]);
    SelectAllOfNone(t);
    assert Answers(t, [], [], []);
    AnswersNext(t, [], Select(None, None), [], Result([]), [], []);
    assert [Select(None, None)] + [] == [Delete(None), Select(None, None)][1..];
    assert [Result([])] + [] == [Result([])];
    DeleteLeavesNothing(t, [GEORGE_23, HOWARD_23]);
    AnswersNext(t, [GEORGE_23, HOWARD_23], Delete(None), [], Done, [Delete(None), Select(None, None)][1..], [Result([])]);
    assert [Delete(None)] + [Delete(None), Select(None, None)][1..] == [Delete(None), Select(None, None)];
    assert [Done] + [Result([])] == [Done, Result([])];
  }

  /** The statements that change the table. */
  lemma Changes(t: Table)
    requires t == UsersTable(t.nums) && t.KeyFirst() && ReadsNumbers(t.nums)
    ensures Answers(t, [GEORGE, TIM, GERALD], SESSION[4..], ANSWERS[4..])
  {
    hide TableStep, DistinctKeys, Answers, ReadsNumbers, IsKey, KeyIndex, RowsShaped;
    var p8, o8 := [Delete(None), Select(None, None)], [Done, Result([])];
    EmptyEnd(t);
    DeleteTim(t);
    UsersKeys(t, [TIM_23, GEORGE_23, HOWARD_23]);
    AnswersNext(t, [TIM_23, GEORGE_23, HOWARD_23], Delete(ID_2), [GEORGE_23, HOWARD_23], Done, p8, o8);
    var p7, o7 := [Delete(ID_2)] + p8, [Done] + o8;
    UpdateAges(t);
    UsersKeys(t, [TIM, GEORGE_2, HOWARD_3]);
    AnswersNext(t, [TIM, GEORGE_2, HOWARD_3], Update([AGE_23], None), [TIM_23, GEORGE_23, HOWARD_23], Done, p7, o7);
    var p6, o6 := [Update([AGE_23], None)] + p7, [Done] + o7;
    UpdateOver20(t);
    UsersKeys(t, [TIM, GERALD, GEORGE_2]);
    AnswersNext(t, [TIM, GERALD, GEORGE_2], Update([HOWARD], OVER_20), [TIM, GEORGE_2, HOWARD_3], Done, p6, o6);
    var p5, o5 := [Update([HOWARD], OVER_20)] + p6, [Done] + o6;
    UpdatePremium(t);
    UsersKeys(t, [GEORGE, TIM, GERALD]);
    AnswersNext(t, [GEORGE, TIM, GERALD], Update([NOT_PREMIUM], ID_1), [TIM, GERALD, GEORGE_2], Done, p5, o5);
    assert [Update([NOT_PREMIUM], ID_1)] + p5 == SESSION[4..] && [Done] + o5 == ANSWERS[4..];
  }

  /** The answers of the session, on the plain table. */
  lemma SessionAnswers(t: Table)
    requires t == UsersTable(t.nums) && t.KeyFirst() && ReadsNumbers(t.nums)
    ensures RowsShaped(t.Layout(), []) && TableRun(t, [], SESSION).1 == ANSWERS && KeysStayDistinct(t, [], SESSION)
  {
    hide TableStep, DistinctKeys, ReadsNumbers, IsKey, KeyIndex, RowsShaped, TableRun, KeysStayDistinct;
    var rows, p4, o4 := [GEORGE, TIM, GERALD], SESSION[4..], ANSWERS[4..];
    Changes(t);
    UsersKeys(t, rows);
    SelectTwoColumns(t);
    AnswersNext(t, rows, Select(Some(NAME_AND_PREMIUM), None), rows, Result(NAMES_ANSWER), p4, o4);
    var p3, o3 := [Select(Some(NAME_AND_PREMIUM), None)] + p4, [Result(NAMES_ANSWER)] + o4;
    SelectLikeG(t);
    AnswersNext(t, rows, Select(None, LIKE_G), rows, Result([GEORGE, GERALD]), p3, o3);
    var p2, o2 := [Select(None, LIKE_G)] + p3, [Result([GEORGE, GERALD])] + o3;
    InsertOneUser(t);
    UsersKeys(t, [GEORGE, TIM]);
    AnswersNext(t, [GEORGE, TIM], Insert(None, ONE_USER), rows, Done, p2, o2);
    var p1, o1 := [Insert(None, ONE_USER)] + p2, [Done] + o2;
    InsertTwoUsers(t);
    UsersKeys(t, []);
    AnswersNext(t, [], Insert(Some(THREE_NAMES), TWO_USERS), [GEORGE, TIM], Done, p1, o1);
    assert [Insert(Some(THREE_NAMES), TWO_USERS)] + p1 == SESSION && [Done] + o1 == ANSWERS;
  }

  lemma SelectAllOfNone(t: Table)
    requires t.KeyFirst()
    ensures TableStep(t, [], Select(None, None)) == ([], Result([]))
  {
    hide IsKey, KeyIndex, TableSelect;
    forall c | c in t.Names() ensures Named(t, c) {
      InNames(t, c);
    }
    SelectAnswersAll(t, [], None);
  }

  /** And from a table file that was just created, on the engine. */
  lemma EngineAnswers(t: Table)
    requires t == UsersTable(t.nums) && ReadsNumbers(t.nums) && Inv(t, State([], map[], 0))
    requires RunFits(t, State([], map[], 0), SESSION)
    ensures Run(t, State([], map[], 0), SESSION).1 == ANSWERS
  {
    hide Run, RunFits, TableRun, KeysStayDistinct, Clean, Indexed, DistinctKeys, IsKey, KeyIndex, ReadsNumbers;
    var s := State([], map[], 0);
    UsersIsValid(t.nums);
    NewTableIsClean(t);
    assert LiveRows(s.recs) == [] && RowsShaped(t.Layout(), []);
    SessionAnswers(t);
    RunRefinesTable(t, s, SESSION);
  }
}
