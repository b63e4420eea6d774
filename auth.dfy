/**
 * The sign-up, login and logout pages: what each request returns (a view name or a redirect
 * plus an error message) and what it does to the registry and to the principal held by the
 * request's security context.
 *
 * The thread's security context becomes the `principal` field; the `error` model attribute
 * of a failed sign-up is returned to the caller.
 */
module Auth {
  import opened Wrappers
  import opened UserRegistry

  const RegisterView: string := "register"
  const LoginView: string := "login"
  const RedirectToLogin: string := "redirect:/login"

  class AuthController {
    const service: CustomUserDetailsService
    /** The principal's name held by the current request's security context, if any. */
    var principal: Option<string>

    ghost predicate Valid()
      reads this, service
    {
      service.Valid()
    }

    constructor (registry: CustomUserDetailsService, signedIn: Option<string>)
      requires registry.Valid()
      ensures service == registry && principal == signedIn && Valid()
    {
      service := registry;
      principal := signedIn;
    }

    /** `GET /register`: the sign-up form. */
    method ShowRegister() returns (view: string)
      ensures view == RegisterView
    {
      view := RegisterView;
    }

    /** `GET /login`: the login form. */
    method ShowLogin() returns (view: string)
      ensures view == LoginView
    {
      view := LoginView;
    }

    /**
     * `POST /register`: on success redirects to the login page; on failure shows the sign-up
     * form again with the failure's message as `error`, the registry being unchanged.
     */
    method RegisterUser(username: string, password: string, salt: Salt)
      returns (view: string, error: Option<string>)
      requires Valid()
      modifies service
      ensures Valid() && principal == old(principal)
      ensures match Register(old(service.users), username, service.encode(password, salt))
              case Success(t) => view == RedirectToLogin && error == None && service.users == t
              case Failure(e) => view == RegisterView && error == Some(e) && service.users == old(service.users)
      ensures username in old(service.users) ==>
                view == RegisterView && error == Some(UsernameTakenError) && service.users == old(service.users)
    {
      var outcome := service.RegisterUser(username, password, salt);
      match outcome
      case Pass =>
        view, error := RedirectToLogin, None;
      case Fail(message) =>
        view, error := RegisterView, Some(message);
    }

    /** `GET /logout`: clears the request's security context and redirects to the login page. */
    method Logout() returns (view: string)
      requires Valid()
      modifies this
      ensures Valid()
      ensures principal == None && view == RedirectToLogin
      ensures service.users == old(service.users)
    {
      principal := None;
      view := RedirectToLogin;
    }
  }
}
