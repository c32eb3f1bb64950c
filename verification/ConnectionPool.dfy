/** The database connection pool: a free list and two unsigned counters under one lock. */
module ConnectionPool {
  import opened Wrappers

  /** A connection handle; the pool holds no null ones, because a failed connect ends the program. */
  type Connection = nat

  const WIDTH := 0x1_0000_0000

  function Took(free: seq<Connection>): (Option<Connection>, seq<Connection>) {
    if free == [] then (None, free) else (Some(free[0]), free[1..])
  }

  function Returned(free: seq<Connection>, c: Option<Connection>): seq<Connection> {
    match c
    case None => free
    case Some(con) => free + [con]
  }

  class Pool {
    var conns: seq<Connection>
    var maxConn: nat
    var curConn: nat
    /** The constructor increments this without setting it first. */
    var freeConn: nat

    /** The counters are unsigned; together with the free list the used ones make up the pool. */
    ghost predicate Counted()
      reads this
    {
      maxConn < WIDTH && curConn < WIDTH && freeConn < WIDTH && (curConn + |conns| - maxConn) % WIDTH == 0
    }

    constructor (all: seq<Connection>, garbage: nat)
      requires |all| < WIDTH && garbage < WIDTH
      ensures Counted() && conns == all && maxConn == |all| && curConn == 0
      ensures freeConn == (garbage + |all|) % WIDTH
    {
      conns := [];
      freeConn := garbage;
      maxConn, curConn := |all|, 0;
      new;
      for i := 0 to |all|
        invariant conns == all[..i] && freeConn == (garbage + i) % WIDTH && maxConn == |all| && curConn == 0
      {
        conns := conns + [all[i]];
        freeConn := (freeConn + 1) % WIDTH;
      }
    }

    method GetConnection() returns (con: Option<Connection>)
      requires Counted()
      modifies this
      ensures Counted() && maxConn == old(maxConn)
      ensures (con, conns) == Took(old(conns))
      ensures if con.None? then curConn == old(curConn) && freeConn == old(freeConn)
              else curConn == (old(curConn) + 1) % WIDTH && freeConn == (old(freeConn) - 1) % WIDTH
    {
      if |conns| > 0 {
        con := Some(conns[0]);
        conns := conns[1..];
        freeConn := (freeConn - 1) % WIDTH;
        curConn := (curConn + 1) % WIDTH;
      } else {
        con := None;
      }
    }

    method ReleaseConnection(con: Option<Connection>) returns (ok: bool)
      requires Counted()
      modifies this
      ensures Counted() && maxConn == old(maxConn)
      ensures conns == Returned(old(conns), con) && ok == con.Some?
      ensures if con.None? then curConn == old(curConn) && freeConn == old(freeConn)
              else curConn == (old(curConn) - 1) % WIDTH && freeConn == (old(freeConn) + 1) % WIDTH
    {
      if con.Some? {
        conns := conns + [con.value];
        freeConn := (freeConn + 1) % WIDTH;
        curConn := (curConn - 1) % WIDTH;
        return true;
      }
      return false;
    }

    /** Once no connection is in the list twice over, the count of used ones is exact. */
    lemma CurConnExact()
      requires Counted() && |conns| <= maxConn
      ensures curConn == maxConn - |conns|
    {
    }
  }
}
