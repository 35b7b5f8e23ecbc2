/**
  Which columns identify a row: what the source catalog says of each published table
  (cmd/source-reader/main.go:378-465), and how the decoder looks it up
  (cmd/source-reader/main.go:187-189).
*/
module Identity {
  import opened Wrappers
  import opened Cdc
  import EventIds

  /** One published table: its replica identity, its primary key, and the columns of its identity index. */
  datatype Published = Published(schema: string, table: string, mode: char, pk: seq<string>, ri: seq<string>)

  /** `schema.table` */
  function Qualified(schema: string, table: string): string {
    schema + ['.'] + table
  }

  /**
    discoverIdentity. A table without a usable key stops it; otherwise every table is listed
    with its identity index, or with its primary key even when the whole row is streamed.
  */
  method DiscoverIdentity(tables: seq<Published>) returns (r: Option<map<string, seq<string>>>)
    ensures r.Some? <==> forall i | 0 <= i < |tables| ::
                           (tables[i].mode in {'d', 'f'} && tables[i].pk != []) ||
                           (tables[i].mode == 'i' && tables[i].ri != [])
    ensures r.Some? ==>
              forall q :: q in r.value <==>
                exists i | 0 <= i < |tables| :: q == Qualified(tables[i].schema, tables[i].table)
    ensures r.Some? ==>
              forall i | 0 <= i < |tables| ::
                (forall j | i < j < |tables| ::
                   Qualified(tables[j].schema, tables[j].table) != Qualified(tables[i].schema, tables[i].table)) ==>
                r.value[Qualified(tables[i].schema, tables[i].table)] ==
                if tables[i].mode == 'i' then tables[i].ri else tables[i].pk
  {
    var identity: map<string, seq<string>> := map[];
    for n := 0 to |tables|
      invariant forall i | 0 <= i < n ::
                  (tables[i].mode in {'d', 'f'} && tables[i].pk != []) || (tables[i].mode == 'i' && tables[i].ri != [])
      invariant forall q :: q in identity <==>
                  exists i | 0 <= i < n :: q == Qualified(tables[i].schema, tables[i].table)
      invariant forall i | 0 <= i < n ::
                  (forall j | i < j < n ::
                     Qualified(tables[j].schema, tables[j].table) != Qualified(tables[i].schema, tables[i].table)) ==>
                  identity[Qualified(tables[i].schema, tables[i].table)] ==
                  if tables[i].mode == 'i' then tables[i].ri else tables[i].pk
    {
      var t := tables[n];
      var key: seq<string>;
      match t.mode {
        case 'd' => key := t.pk;
        case 'i' => key := t.ri;
        case 'f' => key := t.pk;
        case _ => return None;
      }
      if key == [] {
        return None;
      }
      identity := identity[Qualified(t.schema, t.table) := key];
    }
    return Some(identity);
  }

  /** Names without a dot are told apart by their qualified form; with dots two tables can share one entry. */
  lemma {:induction false} QualifiedIsUnambiguous(s: string, t: string, u: string, v: string)
    ensures Qualified(s, t) == Qualified(u, v) && IsIdent(s) && IsIdent(u) ==> s == u && t == v
    ensures Qualified("a", "b.c") == Qualified("a.b", "c")
  {
    if Qualified(s, t) == Qualified(u, v) && IsIdent(s) && IsIdent(u) {
      EventIds.CutAt(s, t, '.');
      EventIds.CutAt(u, v, '.');
    }
  }
}
