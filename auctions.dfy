/** The auction administrators of `import_new_tables`
    (mpcereform/core.py:475-499): each sale's `ID_Agent` cell is a
    comma-separated list whose pieces are either `code (role)` or free text. */
module Auctions {
  import opened Wrappers
  import opened Text

  /** One row of `auction_administrator`: the sale, the administrator (a
      client code or the raw piece of text) and the role id, if any. */
  datatype Administrator = Administrator(sale: string, administrator: string, role: Option<nat>)

  /** `.split` on a NULL cell raises AttributeError; an unknown role word
      raises KeyError. */
  datatype AuctionError = NoAgents(sale: string) | UnknownRole(role: string)

  /** `(c[a-z][0-9]{3,4}) \((\w+)\)` at position p with exactly k digits:
      the code and the role word. `\w+` is greedy, and a shorter run could
      only be followed by another word character, never by `)`. */
  function AdminWith(s: string, p: nat, k: nat): Option<(string, string)>
  {
    var q := p + 2 + k;
    if q + 2 <= |s| && s[p] == 'c' && IsLower(s[p + 1]) && AllDigits(s[p + 2..q]) && s[q] == ' ' && s[q + 1] == '(' then
      var n := WordRun(s, q + 2);
      if n >= 1 && q + 2 + n < |s| && s[q + 2 + n] == ')' then Some((s[p..q], s[q + 2..q + 2 + n])) else None
    else None
  }

  /** The pattern at position p: the greedy `{3,4}` tries four digits first. */
  function AdminAt(s: string, p: nat): Option<(string, string)>
  {
    match AdminWith(s, p, 4)
    case Some(m) => Some(m)
    case None => AdminWith(s, p, 3)
  }

  /** A client code as the pattern reads it: `c`, a lowercase letter and
      three or four digits. */
  predicate AdminCode(code: string) {
    5 <= |code| <= 6 && code[0] == 'c' && IsLower(code[1]) && AllDigits(code[2..])
  }

  /** What the pattern means at p: the code, a space, the role word of one
      or more word characters in parentheses. */
  predicate MatchesAt(s: string, p: nat, code: string, role: string) {
    var q := p + |code|;
    && AdminCode(code) && |role| >= 1
    && q + 2 + |role| < |s|
    && s[p..q] == code && s[q] == ' ' && s[q + 1] == '('
    && s[q + 2..q + 2 + |role|] == role && (forall i :: 0 <= i < |role| ==> IsWordChar(role[i]))
    && s[q + 2 + |role|] == ')'
  }

  lemma AdminWithSpec(s: string, p: nat, k: nat)
    requires k == 3 || k == 4
    ensures AdminWith(s, p, k).Some? ==>
              var m := AdminWith(s, p, k).value; |m.0| == 2 + k && MatchesAt(s, p, m.0, m.1)
  {
    var q := p + 2 + k;
    if AdminWith(s, p, k).Some? {
      var m := AdminWith(s, p, k).value;
      assert m.0[2..] == s[p + 2..q];
      var n := WordRun(s, q + 2);
      assert forall i :: 0 <= i < n ==> m.1[i] == s[q + 2 + i];
    }
  }

  /** The scanner finds a match at p exactly when the pattern matches there,
      and the match it returns is the only one. */
  lemma AdminAtSpec(s: string, p: nat)
    ensures AdminAt(s, p).Some? ==> MatchesAt(s, p, AdminAt(s, p).value.0, AdminAt(s, p).value.1)
    ensures forall code, role :: MatchesAt(s, p, code, role) ==> AdminAt(s, p) == Some((code, role))
  {
    AdminWithSpec(s, p, 4);
    AdminWithSpec(s, p, 3);
    forall code, role | MatchesAt(s, p, code, role) ensures AdminAt(s, p) == Some((code, role)) {
      MatchUnique(s, p, code, role);
    }
  }

  lemma MatchUnique(s: string, p: nat, code: string, role: string)
    requires MatchesAt(s, p, code, role)
    ensures AdminAt(s, p) == Some((code, role))
  {
    var k := |code| - 2;
    var q := p + |code|;
    assert forall i :: p + 2 <= i < q ==> s[i] == code[i - p];
    assert AllDigits(s[p + 2..q]);
    assert forall i :: 0 <= i < |role| ==> s[q + 2 + i] == role[i];
    WordRunExact(s, q + 2, |role|);
    assert AdminWith(s, p, k) == Some((code, role));
    if k == 3 {
      assert !IsDigit(s[q]);
      assert AdminWith(s, p, 4).None?;
    }
  }

  lemma {:induction false} WordRunExact(s: string, p: nat, n: nat)
    requires p + n < |s| && (forall i :: p <= i < p + n ==> IsWordChar(s[i])) && !IsWordChar(s[p + n])
    ensures WordRun(s, p) == n
    decreases n
  {
    if n > 0 {
      WordRunExact(s, p + 1, n - 1);
    }
  }

  function AdminMatcher(s: string): nat -> Option<(string, string)> { (p: nat) => AdminAt(s, p) }

  /** `{role: id for id, role in rows}`: a later row with the same role
      overwrites an earlier one. */
  function RoleTable(rows: seq<(nat, string)>): map<string, nat>
    decreases |rows|
  {
    if rows == [] then map[]
    else
      var last := rows[|rows| - 1];
      RoleTable(rows[..|rows| - 1])[last.1 := last.0]
  }

  /** The table knows exactly the roles of the rows, each with the id of
      the last row that names it. */
  lemma {:induction false} RoleTableSpec(rows: seq<(nat, string)>)
    ensures forall role :: role in RoleTable(rows) <==> exists i :: 0 <= i < |rows| && rows[i].1 == role
    ensures forall i :: 0 <= i < |rows| && (forall j :: i < j < |rows| ==> rows[j].1 != rows[i].1) ==>
              RoleTable(rows)[rows[i].1] == rows[i].0
    decreases |rows|
  {
    if rows != [] {
      var init := rows[..|rows| - 1];
      RoleTableSpec(init);
      forall role | role in RoleTable(rows) ensures exists i :: 0 <= i < |rows| && rows[i].1 == role {
        if role != rows[|rows| - 1].1 {
          var i :| 0 <= i < |init| && init[i].1 == role;
          assert rows[i] == init[i];
        }
      }
      forall i | 0 <= i < |rows| && (forall j :: i < j < |rows| ==> rows[j].1 != rows[i].1)
        ensures RoleTable(rows)[rows[i].1] == rows[i].0
      {
        if i < |rows| - 1 {
          assert rows[i] == init[i];
          assert forall j :: i < j < |init| ==> init[j] == rows[j];
        }
      }
      forall role | exists i :: 0 <= i < |rows| && rows[i].1 == role ensures role in RoleTable(rows) {
        var i :| 0 <= i < |rows| && rows[i].1 == role;
        if i < |rows| - 1 {
          assert init[i] == rows[i];
        }
      }
    }
  }

  /** The row for one comma-separated piece: the code and its role id when
      the pattern is found anywhere in the piece, else the piece unchanged. */
  function PieceEntry(sale: string, piece: string, roles: map<string, nat>): Result<Administrator, AuctionError>
  {
    match Leftmost(AdminMatcher(piece), 0, |piece|)
    case None => Success(Administrator(sale, piece, None))
    case Some((_, m)) =>
      if m.1 in roles then Success(Administrator(sale, m.0, Some(roles[m.1]))) else Failure(UnknownRole(m.1))
  }

  /** The rows for the first pieces of a sale, stopping at the first error. */
  function PieceEntries(sale: string, pieces: seq<string>, roles: map<string, nat>): Result<seq<Administrator>, AuctionError>
    decreases |pieces|
  {
    if pieces == [] then Success([])
    else match PieceEntries(sale, pieces[..|pieces| - 1], roles)
      case Failure(e) => Failure(e)
      case Success(es) =>
        match PieceEntry(sale, pieces[|pieces| - 1], roles)
        case Failure(e) => Failure(e)
        case Success(a) => Success(es + [a])
  }

  /** `auction_administrator` for the rows of `manuscript_sales_events`. */
  function Administrators(rows: seq<(string, Option<string>)>, roles: map<string, nat>): Result<seq<Administrator>, AuctionError>
    decreases |rows|
  {
    if rows == [] then Success([])
    else match Administrators(rows[..|rows| - 1], roles)
      case Failure(e) => Failure(e)
      case Success(es) =>
        var (sale, agents) := rows[|rows| - 1];
        if agents.None? then Failure(NoAgents(sale))
        else match PieceEntries(sale, Split(agents.value, ','), roles)
          case Failure(e) => Failure(e)
          case Success(more) => Success(es + more)
  }

  /** The outer loop of mpcereform/core.py:488-499, over the sales. */
  method ParseAdministrators(rows: seq<(string, Option<string>)>, roles: map<string, nat>)
    returns (r: Result<seq<Administrator>, AuctionError>)
    ensures r == Administrators(rows, roles)
  {
    var auctionAdministrator: seq<Administrator> := [];
    var i := 0;
    while i < |rows|
      invariant 0 <= i <= |rows|
      invariant Administrators(rows[..i], roles) == Success(auctionAdministrator)
    {
      assert rows[..i + 1][..i] == rows[..i];
      var (sale, agents) := rows[i];
      if agents.None? {
        PrefixFailure(rows, roles, i + 1);
        return Failure(NoAgents(sale));
      }
      var entries := SaleAdministrators(sale, Split(agents.value, ','), roles);
      if entries.Failure? {
        PrefixFailure(rows, roles, i + 1);
        return Failure(entries.error);
      }
      auctionAdministrator := auctionAdministrator + entries.value;
      i := i + 1;
    }
    assert rows[..i] == rows;
    return Success(auctionAdministrator);
  }

  /** The inner loop of mpcereform/core.py:491-499, over the pieces of one
      sale's agent list. */
  method SaleAdministrators(sale: string, pieces: seq<string>, roles: map<string, nat>)
    returns (r: Result<seq<Administrator>, AuctionError>)
    ensures r == PieceEntries(sale, pieces, roles)
  {
    var entries: seq<Administrator> := [];
    var j := 0;
    while j < |pieces|
      invariant 0 <= j <= |pieces|
      invariant PieceEntries(sale, pieces[..j], roles) == Success(entries)
    {
      assert pieces[..j + 1][..j] == pieces[..j];
      var entry := PieceEntry(sale, pieces[j], roles);
      if entry.Failure? {
        PiecesFailure(sale, pieces, roles, j + 1);
        return Failure(entry.error);
      }
      entries := entries + [entry.value];
      j := j + 1;
    }
    assert pieces[..j] == pieces;
    return Success(entries);
  }

  /** Once the pieces up to k fail, all of them fail the same way. */
  lemma {:induction false} PiecesFailure(sale: string, pieces: seq<string>, roles: map<string, nat>, k: nat)
    requires k <= |pieces| && PieceEntries(sale, pieces[..k], roles).Failure?
    ensures PieceEntries(sale, pieces, roles) == PieceEntries(sale, pieces[..k], roles)
    decreases |pieces| - k
  {
    if k < |pieces| {
      assert pieces[..k + 1][..k] == pieces[..k];
      PiecesFailure(sale, pieces, roles, k + 1);
    } else {
      assert pieces[..k] == pieces;
    }
  }

  /** Once the rows up to k fail, all of them fail the same way. */
  lemma {:induction false} PrefixFailure(rows: seq<(string, Option<string>)>, roles: map<string, nat>, k: nat)
    requires k <= |rows| && Administrators(rows[..k], roles).Failure?
    ensures Administrators(rows, roles) == Administrators(rows[..k], roles)
    decreases |rows| - k
  {
    if k < |rows| {
      assert rows[..k + 1][..k] == rows[..k];
      PrefixFailure(rows, roles, k + 1);
    } else {
      assert rows[..k] == rows;
    }
  }

  /** A piece without the pattern is kept whole with no role; a piece with
      it gives the code and role's id of the match that no earlier position
      has, or the KeyError when that role word is not in the table. */
  lemma PieceEntrySpec(sale: string, piece: string, roles: map<string, nat>)
    ensures (forall p: nat :: AdminAt(piece, p).None?) <==>
              PieceEntry(sale, piece, roles) == Success(Administrator(sale, piece, None))
    ensures var r := PieceEntry(sale, piece, roles);
              r.Success? && r.value.role.Some? ==>
                r.value.sale == sale && AdminCode(r.value.administrator) &&
                exists p: nat, role :: MatchesAt(piece, p, r.value.administrator, role) &&
                  (forall q: nat :: q < p ==> AdminAt(piece, q).None?) &&
                  role in roles && roles[role] == r.value.role.value
    ensures (exists p: nat :: AdminAt(piece, p).Some?) ==>
              PieceEntry(sale, piece, roles).Failure? || PieceEntry(sale, piece, roles).value.role.Some?
    ensures var r := PieceEntry(sale, piece, roles);
              r.Failure? ==>
                r.error.role !in roles &&
                exists p: nat, code :: MatchesAt(piece, p, code, r.error.role) &&
                  (forall q: nat :: q < p ==> AdminAt(piece, q).None?)
  {
    assert forall p: nat :: AdminMatcher(piece)(p) == AdminAt(piece, p);
    var m := Leftmost(AdminMatcher(piece), 0, |piece|);
    if m.Some? {
      var p := m.value.0;
      AdminAtSpec(piece, p);
      assert AdminAt(piece, p).Some?;
    } else {
      forall p: nat ensures AdminAt(piece, p).None? {
        if p > |piece| {
          assert AdminWith(piece, p, 4).None? && AdminWith(piece, p, 3).None?;
        }
      }
    }
  }

  /** One row per comma-separated piece: a sale with c commas in its cell
      gives c + 1 rows, all carrying that sale. */
  lemma {:induction false} PieceEntriesCount(sale: string, pieces: seq<string>, roles: map<string, nat>)
    ensures var r := PieceEntries(sale, pieces, roles);
              r.Success? ==> |r.value| == |pieces| && forall k :: 0 <= k < |r.value| ==> r.value[k].sale == sale
    decreases |pieces|
  {
    if pieces != [] {
      PieceEntriesCount(sale, pieces[..|pieces| - 1], roles);
    }
  }

  /** The total number of pieces over the sales. */
  function PieceCount(rows: seq<(string, Option<string>)>): nat
    decreases |rows|
  {
    if rows == [] then 0
    else
      var agents := rows[|rows| - 1].1;
      PieceCount(rows[..|rows| - 1]) + (if agents.Some? then Count(agents.value, ',') + 1 else 0)
  }

  /** On success there is one administrator row per piece of every cell. */
  lemma {:induction false} AdministratorsCount(rows: seq<(string, Option<string>)>, roles: map<string, nat>)
    ensures var r := Administrators(rows, roles); r.Success? ==> |r.value| == PieceCount(rows)
    decreases |rows|
  {
    if rows != [] {
      AdministratorsCount(rows[..|rows| - 1], roles);
      var (sale, agents) := rows[|rows| - 1];
      if agents.Some? {
        SplitCount(agents.value, ',');
        PieceEntriesCount(sale, Split(agents.value, ','), roles);
      }
    }
  }

  /** "cl0335 (seller), Dupont": a code with its role, then free text kept
      as it stands, leading space included. */
  lemma ExampleSale()
    ensures PieceEntries("s1", ["cl0335 (seller)", " Dupont"], map["seller" := 2]) ==
              Success([Administrator("s1", "cl0335", Some(2)), Administrator("s1", " Dupont", None)])
  {
    var first, second := "cl0335 (seller)", " Dupont";
    var roles := map["seller" := 2];
    var one := Administrator("s1", "cl0335", Some(2));
    var two := Administrator("s1", " Dupont", None);
    ExampleCodePiece();
    ExampleTextPiece();
    var none: seq<string> := [];
    PieceEntriesAppend("s1", none, first, roles);
    assert none + [first] == [first];
    assert PieceEntries("s1", none, roles) == Success([]);
    assert [] + [one] == [one];
    assert PieceEntries("s1", [first], roles) == Success([one]);
    PieceEntriesAppend("s1", [first], second, roles);
    assert [first] + [second] == [first, second];
    assert [one] + [two] == [one, two];
  }

  lemma ExampleCodePiece()
    ensures PieceEntry("s1", "cl0335 (seller)", map["seller" := 2]) == Success(Administrator("s1", "cl0335", Some(2)))
  {
    var first := "cl0335 (seller)";
    ExampleAdminAt();
    LeftmostFirst(AdminMatcher(first), |first|, 0);
  }

  lemma ExampleAdminAt()
    ensures AdminAt("cl0335 (seller)", 0) == Some(("cl0335", "seller"))
  {
    var first := "cl0335 (seller)";
    assert AllDigits(first[2..6]) by {
      assert first[2..6] == "0335";
    }
    assert first[6] == ' ' && first[7] == '(';
    assert WordRun(first, 8) == 6 by {
      assert WordRun(first, 14) == 0;
    }
    assert first[14] == ')';
    assert first[0..6] == "cl0335" && first[8..14] == "seller";
    assert AdminWith(first, 0, 4) == Some(("cl0335", "seller"));
  }

  lemma ExampleTextPiece()
    ensures PieceEntry("s1", " Dupont", map["seller" := 2]) == Success(Administrator("s1", " Dupont", None))
  {
    var second := " Dupont";
    PieceEntrySpec("s1", second, map["seller" := 2]);
    assert forall p: nat :: AdminAt(second, p).None?;
  }

  lemma PieceEntriesAppend(sale: string, pieces: seq<string>, piece: string, roles: map<string, nat>)
    requires PieceEntries(sale, pieces, roles).Success? && PieceEntry(sale, piece, roles).Success?
    ensures PieceEntries(sale, pieces + [piece], roles) ==
              Success(PieceEntries(sale, pieces, roles).value + [PieceEntry(sale, piece, roles).value])
  {
    assert (pieces + [piece])[..|pieces|] == pieces;
  }
}
