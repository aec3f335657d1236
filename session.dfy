/** What the client pages share: the browser's `localStorage` (a `token` entry the route guards
    read and a `user` entry holding the logged-in user's data) and the outcome of an API call. */
module Session {
  import opened Common
  import opened AuthController

  /** `localStorage.setItem(key, value)` stores `String(value)`: an undefined value is stored
      as the text "undefined". */
  function StorageText(value: Option<string>): (t: string)
    ensures value.Some? ==> t == value.value
    ensures value.None? ==> t == "undefined"
  {
    if value.Some? then value.value else "undefined"
  }

  /** What the request gave back: the reply body on success, or the `message` of the error
      reply (if the error carried one). */
  datatype ApiOutcome<T> = Succeeded(body: T) | Failed(message: Option<string>)

  /** `error.response?.data?.message || fallback`. */
  function ErrorText(message: Option<string>, fallback: string): (t: string)
    ensures Present(message) ==> t == message.value
    ensures !Present(message) ==> t == fallback
  {
    if Present(message) then message.value else fallback
  }

  /** `parsedUserData.name`, where `parsedUserData` is the parsed `user` entry, or
      `{ name: '', userId: '' }` when there is none. */
  function StoredName(user: Option<UserData>): (n: string)
    ensures user.Some? ==> n == user.value.name
    ensures user.None? ==> n == ""
  {
    if user.Some? then user.value.name else ""
  }

  class BrowserStorage {
    /** `localStorage.getItem('token')`; `None` when the entry was never written. */
    var token: Option<string>
    /** The parsed `user` entry. */
    var user: Option<UserData>

    constructor (token: Option<string>, user: Option<UserData>)
      ensures this.token == token && this.user == user
    {
      this.token := token;
      this.user := user;
    }
  }
}
