/**
 * The Rack::TempfileReaper contract, as test/spec_tempfile_reaper.rb pins it
 * down. The request env may hold an ordered `rack.tempfiles` registry. The
 * reaper creates the registry when it is missing. The application may
 * append to it and then either returns a response or raises an error. On
 * the error path every registered tempfile is closed before the error
 * propagates. On the return path, closing the response body closes every
 * registered tempfile.
 */
module TempfileReaper {
  import opened Wrappers

  /** `MockTempfile`: a handle whose only state is whether `close!` was called. */
  class Tempfile {
    var closed: bool

    constructor ()
      ensures !closed
    {
      closed := false;
    }

    /** `close!`. */
    method Close()
      modifies this
      ensures closed
    {
      closed := true;
    }
  }

  /** The request env; only its `rack.tempfiles` slot is modelled. */
  class Env {
    var tempfiles: Option<seq<Tempfile>>

    constructor (tempfiles: Option<seq<Tempfile>>)
      ensures this.tempfiles == tempfiles
    {
      this.tempfiles := tempfiles;
    }
  }

  /** The tempfiles registered in `env`; none when the slot is missing. */
  function Registered(env: Env): (r: seq<Tempfile>)
    reads env
    ensures env.tempfiles.Some? ==> r == env.tempfiles.value
    ensures env.tempfiles.None? ==> r == []
  {
    match env.tempfiles
    case Some(files) => files
    case None => []
  }

  ghost predicate AllClosed(files: seq<Tempfile>)
    reads files
  {
    forall i :: 0 <= i < |files| ==> files[i].closed
  }

  /** A RuntimeError is a StandardError; a LoadError is not. */
  datatype ErrorKind = StandardError | NonStandardError

  datatype Error = Error(kind: ErrorKind, message: string)

  /** How the application ends: with a response, or by raising. */
  datatype Outcome =
    | Returns(status: int, headers: map<string, string>, parts: seq<string>)
    | Raises(error: Error)

  /** An application: the tempfiles it appends to the registry, in order, then its outcome. */
  datatype App = App(appends: seq<Tempfile>, outcome: Outcome)

  /** What `env['rack.tempfiles'] << tempfile` raises when the slot is `nil`. */
  const NilAppendError: Error := Error(StandardError, "NoMethodError: undefined method '<<' for nil")

  /**
   * The application running against `env`: it appends its tempfiles, in
   * order, to the registry it finds there, then ends with its outcome. With
   * no registry, the first append raises NoMethodError and nothing is appended.
   */
  method RunApp(env: Env, app: App) returns (outcome: Outcome)
    modifies env
    ensures old(env.tempfiles).None? && app.appends != [] ==>
              outcome == Raises(NilAppendError) && env.tempfiles == old(env.tempfiles)
    ensures old(env.tempfiles).Some? || app.appends == [] ==>
              && outcome == app.outcome
              && env.tempfiles == if app.appends == [] then old(env.tempfiles)
                                  else Some(old(Registered(env)) + app.appends)
  {
    if app.appends == [] {
      outcome := app.outcome;
    } else if env.tempfiles.None? {
      outcome := Raises(NilAppendError);
    } else {
      env.tempfiles := Some(env.tempfiles.value + app.appends);
      outcome := app.outcome;
    }
  }

  /** The body the reaper hands back: the application's parts, and a close
      hook that closes the tempfiles registered in the request env. */
  class ReapedBody {
    const parts: seq<string>
    const env: Env

    constructor (parts: seq<string>, env: Env)
      ensures this.parts == parts && this.env == env
    {
      this.parts := parts;
      this.env := env;
    }

    /** `close`: every tempfile in the registry is closed. */
    method Close()
      modifies Registered(env)
      ensures AllClosed(Registered(env))
    {
      CloseAll(Registered(env));
    }
  }

  /** What a call through the reaper yields: a response whose body is a
      ReapedBody, or the application's error, raised again. */
  datatype Completion =
    | Responded(status: int, headers: map<string, string>, body: ReapedBody)
    | Raised(error: Error)

  /** Calls `close!` on each tempfile, in order. */
  method CloseAll(files: seq<Tempfile>)
    modifies files
    ensures AllClosed(files)
  {
    var i := 0;
    while i < |files|
      invariant 0 <= i <= |files|
      invariant forall j :: 0 <= j < i ==> files[j].closed
    {
      files[i].Close();
      i := i + 1;
    }
  }

  /**
   * The reaper's `call(env)`. The registry is created if missing, the
   * application appends its tempfiles to that same registry, and then:
   * an error of either kind is raised again unchanged once every registered
   * tempfile is closed; a response is handed back with its status and
   * headers, its body wrapped so that closing it closes the registry.
   */
  method Call(env: Env, app: App) returns (r: Completion)
    modifies env, Registered(env), app.appends
    ensures env.tempfiles.Some?
    ensures Registered(env) == old(Registered(env)) + app.appends
    ensures app.outcome.Raises? ==> r == Raised(app.outcome.error) && AllClosed(Registered(env))
    ensures app.outcome.Returns? ==>
              && r.Responded?
              && r.status == app.outcome.status
              && r.headers == app.outcome.headers
              && fresh(r.body)
              && r.body.parts == app.outcome.parts
              && r.body.env == env
              && forall t :: t in Registered(env) ==> t.closed == old(t.closed)
  {
    if env.tempfiles.None? {
      env.tempfiles := Some([]);
    }
    var outcome := RunApp(env, app);
    match outcome
    case Raises(error) =>
      CloseAll(env.tempfiles.value);
      r := Raised(error);
    case Returns(status, headers, parts) =>
      var body := new ReapedBody(parts, env);
      r := Responded(status, headers, body);
  }

  /** The application of the tests that answers normally. */
  function HelloApp(appends: seq<Tempfile>): (r: App)
    ensures r.appends == appends && r.outcome == Returns(200, map[], ["Hello, World!"])
  {
    App(appends, Returns(200, map[], ["Hello, World!"]))
  }

  /** 'do nothing (i.e. not bomb out) without env[rack.tempfiles]'. */
  method WithoutRegistry() returns (status: int)
    ensures status == 200
  {
    var env := new Env(None);
    var r := Call(env, HelloApp([]));
    r.body.Close();
    status := r.status;
  }

  /** 'close env[rack.tempfiles] when app raises an error' (`raise 'foo'`). */
  method RaisesStandardError() returns (error: Error, t1: Tempfile, t2: Tempfile)
    ensures error == Error(StandardError, "foo")
    ensures t1.closed && t2.closed
  {
    t1 := new Tempfile();
    t2 := new Tempfile();
    var env := new Env(Some([t1, t2]));
    var r := Call(env, App([], Raises(Error(StandardError, "foo"))));
    error := r.error;
    assert Registered(env)[0] == t1 && Registered(env)[1] == t2;
  }

  /** 'close env[rack.tempfiles] when app raises an non-StandardError' (`raise LoadError, 'foo'`). */
  method RaisesNonStandardError() returns (error: Error, t1: Tempfile, t2: Tempfile)
    ensures error.kind == NonStandardError
    ensures t1.closed && t2.closed
  {
    t1 := new Tempfile();
    t2 := new Tempfile();
    var env := new Env(Some([t1, t2]));
    var r := Call(env, App([], Raises(Error(NonStandardError, "foo"))));
    error := r.error;
    assert Registered(env)[0] == t1 && Registered(env)[1] == t2;
  }

  /** 'close env[rack.tempfiles] when body is closed'. */
  method BodyCloseClosesRegistry() returns (t1: Tempfile, t2: Tempfile)
    ensures t1.closed && t2.closed
  {
    t1 := new Tempfile();
    t2 := new Tempfile();
    var env := new Env(Some([t1, t2]));
    var r := Call(env, HelloApp([]));
    r.body.Close();
    assert Registered(env)[0] == t1 && Registered(env)[1] == t2;
  }

  /** Without the reaper, the application of 'initialize env[rack.tempfiles]
      when not already present' fails on an env that has no registry. */
  method AppendWithoutRegistryFails() returns (outcome: Outcome)
    ensures outcome == Raises(NilAppendError)
  {
    var t := new Tempfile();
    var env := new Env(None);
    outcome := RunApp(env, HelloApp([t]));
  }

  /** 'initialize env[rack.tempfiles] when not already present'. */
  method CreatesMissingRegistry() returns (t: Tempfile)
    ensures t.closed
  {
    t := new Tempfile();
    var env := new Env(None);
    var r := Call(env, HelloApp([t]));
    r.body.Close();
    assert Registered(env)[0] == t;
  }

  /** 'append env[rack.tempfiles] when already present'. */
  method AppendsToExistingRegistry() returns (t1: Tempfile, t2: Tempfile)
    ensures t1.closed && t2.closed
  {
    t1 := new Tempfile();
    t2 := new Tempfile();
    var env := new Env(Some([t1]));
    var r := Call(env, HelloApp([t2]));
    r.body.Close();
    assert Registered(env)[0] == t1 && Registered(env)[1] == t2;
  }
}
